/**
  An inverse of the literal printer: what a reader that knows only the printed SQL can recover.

  The round trip holds for every literal tree, whatever its nesting, up to a normal form, and two
  literals print alike exactly when their normal forms agree. Type names need balanced brackets and
  quotes and no comma outside them; the lemmas at the end show that each of these is needed.
 */
module SqlLiteralParser {
  import opened Basics
  import opened SqlGrammar
  import opened SqlLiterals

  function StripPrefix(s: bytes, prefix: bytes): (r: Option<bytes>)
    ensures r.Some? ==> s == prefix + r.value
  {
    if prefix <= s then
      assert s == prefix + s[|prefix|..];
      Some(s[|prefix|..])
    else None
  }

  lemma StripAppend(prefix: bytes, rest: bytes)
    ensures StripPrefix(prefix + rest, prefix) == Some(rest)
  {
    assert (prefix + rest)[|prefix|..] == rest;
  }

  function UnhexDigit(b: byte): Option<int> {
    if 48 <= b <= 57 then Some(b - 48) else if 97 <= b <= 102 then Some(b - 87) else None
  }

  function Unhex(s: bytes): Option<bytes> {
    if s == [] then Some([])
    else if |s| == 1 || UnhexDigit(s[0]) == None || UnhexDigit(s[1]) == None then None
    else
      match Unhex(s[2..])
      case None => None
      case Some(data) => Some([16 * UnhexDigit(s[0]).value + UnhexDigit(s[1]).value] + data)
  }

  /** The byte string whose printed text this is, if any. */
  function ByteaOf(text: bytes): Option<bytes> {
    if |text| >= 2 && text[0] == BACKSLASH && text[1] == 120 then Unhex(text[2..]) else None
  }

  /** Reads an escape-string body up to its closing quote. */
  function Unescape(s: bytes): (r: Option<(bytes, bytes)>)
    ensures r.Some? ==> |r.value.1| < |s|
  {
    if s == [] then None
    else if s[0] == QUOTE then Some(([], s[1..]))
    else if s[0] == BACKSLASH then
      if |s| >= 2 && (s[1] == BACKSLASH || s[1] == QUOTE) then Prepend(s[1], Unescape(s[2..])) else None
    else Prepend(s[0], Unescape(s[1..]))
  }

  function Prepend(b: byte, r: Option<(bytes, bytes)>): Option<(bytes, bytes)> {
    match r
    case None => None
    case Some((text, rest)) => Some(([b] + text, rest))
  }

  // ----- type names -----

  predicate NestingOpens(b: byte) {
    b == LEFT_BRACKET || b == LEFT_PARENTHESIS
  }

  predicate NestingCloses(b: byte) {
    b == RIGHT_BRACKET || b == RIGHT_PARENTHESIS
  }

  /** One byte of a type name, inside or outside a quoted part and at a depth of nesting; a comma
      or a closing bracket that belongs to nothing ends the name. */
  function TypeStep(b: byte, quoted: bool, depth: nat): Option<(bool, nat)> {
    if quoted then Some((b != DOUBLE_QUOTE, depth))
    else if b == DOUBLE_QUOTE then Some((true, depth))
    else if NestingOpens(b) then Some((false, depth + 1))
    else if NestingCloses(b) then (if depth == 0 then None else Some((false, depth - 1)))
    else if b == COMMA && depth == 0 then None
    else Some((false, depth))
  }

  predicate TypeNameFrom(t: bytes, quoted: bool, depth: nat)
    decreases |t|
  {
    if t == [] then !quoted && depth == 0
    else
      match TypeStep(t[0], quoted, depth)
      case None => false
      case Some((q, d)) => TypeNameFrom(t[1..], q, d)
  }

  /** Brackets and quotes are balanced, and commas stand only inside them: `numeric(10,2)`,
      `bigint[]` and `app."Mood, mostly"` are such names. */
  predicate TypeName(t: bytes) {
    TypeNameFrom(t, false, 0)
  }

  function TypeEnd(s: bytes, quoted: bool, depth: nat): (n: nat)
    ensures n <= |s|
    decreases |s|
  {
    if s == [] then 0
    else
      match TypeStep(s[0], quoted, depth)
      case None => 0
      case Some((q, d)) => 1 + TypeEnd(s[1..], q, d)
  }

  lemma {:induction false} TypeEndIs(t: bytes, quoted: bool, depth: nat, rest: bytes)
    requires TypeNameFrom(t, quoted, depth) && (rest == [] || TypeStep(rest[0], false, 0) == None)
    ensures TypeEnd(t + rest, quoted, depth) == |t| && (t + rest)[..|t|] == t && (t + rest)[|t|..] == rest
    decreases |t|
  {
    if t == [] {
      assert t + rest == rest;
    } else {
      assert (t + rest)[1..] == t[1..] + rest;
      var (q, d) := TypeStep(t[0], quoted, depth).value;
      TypeEndIs(t[1..], q, d, rest);
    }
  }

  lemma {:induction false} TypeNameAppend(t: bytes, quoted: bool, depth: nat, u: bytes)
    requires TypeNameFrom(t, quoted, depth) && TypeName(u)
    ensures TypeNameFrom(t + u, quoted, depth)
    decreases |t|
  {
    if t == [] {
      assert t + u == u;
    } else {
      assert (t + u)[1..] == t[1..] + u;
      var (q, d) := TypeStep(t[0], quoted, depth).value;
      TypeNameAppend(t[1..], q, d, u);
    }
  }

  lemma ArrayTypeName(t: bytes)
    requires TypeName(t)
    ensures TypeName(t + Ascii("[]"))
  {
    var brackets := Ascii("[]");
    assert brackets == [LEFT_BRACKET, RIGHT_BRACKET] && brackets[1..] == [RIGHT_BRACKET] && brackets[1..][1..] == [];
    TypeNameAppend(t, false, 0, brackets);
  }

  predicate PlainNameByte(b: byte) {
    b != COMMA && b != DOUBLE_QUOTE && !NestingOpens(b) && !NestingCloses(b)
  }

  lemma {:induction false} PlainTypeName(t: bytes)
    requires forall i | 0 <= i < |t| :: PlainNameByte(t[i])
    ensures TypeName(t)
  {
    if t != [] {
      PlainTypeName(t[1..]);
    }
  }

  lemma {:induction false} ClosingModifier(args: bytes)
    requires forall i | 0 <= i < |args| :: args[i] == COMMA || PlainNameByte(args[i])
    ensures TypeNameFrom(args + [RIGHT_PARENTHESIS], false, 1)
  {
    var t := args + [RIGHT_PARENTHESIS];
    if args == [] {
      assert t[1..] == [];
    } else {
      assert t[1..] == args[1..] + [RIGHT_PARENTHESIS];
      ClosingModifier(args[1..]);
    }
  }

  /** Names with modifiers, such as `numeric(10,2)`, are type names. */
  lemma ModifiedTypeName(name: bytes, args: bytes)
    requires forall i | 0 <= i < |name| :: PlainNameByte(name[i])
    requires forall i | 0 <= i < |args| :: args[i] == COMMA || PlainNameByte(args[i])
    ensures TypeName(name + ([LEFT_PARENTHESIS] + (args + [RIGHT_PARENTHESIS])))
  {
    ClosingModifier(args);
    PlainTypeName(name);
    var modifier := [LEFT_PARENTHESIS] + (args + [RIGHT_PARENTHESIS]);
    assert modifier[1..] == args + [RIGHT_PARENTHESIS];
    TypeNameAppend(name, false, 0, modifier);
  }

  // ----- reading literals -----

  function ParseQuoted(s: bytes): (r: Option<(Literal, bytes)>)
    ensures r.Some? ==> |r.value.1| < |s|
  {
    match Unescape(s)
    case None => None
    case Some((text, rest)) =>
      match StripPrefix(rest, Ascii("::"))
      case None => Some((Text(text), rest))
      case Some(cast) =>
        var n := TypeEnd(cast, false, 0);
        if cast[..n] == Ascii("bytea") && ByteaOf(text).Some? then Some((Bytea(ByteaOf(text).value), cast[n..]))
        else Some((TextCast(text, cast[..n]), cast[n..]))
  }

  function ParseWidth(s: bytes): (r: Option<(IntegerWidth, bytes)>)
    ensures r.Some? ==> |r.value.1| < |s|
  {
    if StripPrefix(s, Ascii(")::smallint")).Some? then Some((I16, StripPrefix(s, Ascii(")::smallint")).value))
    else if StripPrefix(s, Ascii(")::integer")).Some? then Some((I32, StripPrefix(s, Ascii(")::integer")).value))
    else if StripPrefix(s, Ascii(")::bigint")).Some? then Some((I64, StripPrefix(s, Ascii(")::bigint")).value))
    else None
  }

  function ParseMagnitude(negative: bool, s: bytes): (r: Option<(Literal, bytes)>)
    ensures r.Some? ==> |r.value.1| < |s|
  {
    var n := DigitsEnd(s);
    DigitsEndIsGrammar(s, n);
    match ParseWidth(s[n..])
    case None => None
    case Some((width, rest)) =>
      var magnitude: int := DecimalValue(s[..n]);
      Some((Integer(width, if negative then -magnitude else magnitude), rest))
  }

  function ParseInteger(s: bytes): (r: Option<(Literal, bytes)>)
    ensures r.Some? ==> |r.value.1| < |s|
  {
    if StartsWith(s, '-' as int) then ParseMagnitude(true, s[1..]) else ParseMagnitude(false, s)
  }

  function FloatEnd(s: bytes): (n: nat)
    ensures n <= |s|
  {
    if s == [] || !FloatByte(s[0]) then 0 else 1 + FloatEnd(s[1..])
  }

  function ParseFiniteFloat(s: bytes): (r: Option<(Literal, bytes)>)
    ensures r.Some? ==> |r.value.1| < |s|
  {
    var n := FloatEnd(s);
    match StripPrefix(s[n..], Ascii("::double precision"))
    case None => None
    case Some(rest) => Some((Float(Finite(s[..n])), rest))
  }

  /** A special float by its name. */
  function ParseNamed(s: bytes, name: bytes, float: FloatValue): (r: Option<(Literal, bytes)>)
    ensures r.Some? ==> |r.value.1| < |s|
  {
    match StripPrefix(s, [QUOTE] + name + [QUOTE] + Ascii("::double precision"))
    case None => None
    case Some(rest) => Some((Float(float), rest))
  }

  function ParseSpecialFloat(s: bytes): (r: Option<(Literal, bytes)>)
    ensures r.Some? ==> |r.value.1| < |s|
  {
    if ParseNamed(s, Ascii("NaN"), NotANumber).Some? then ParseNamed(s, Ascii("NaN"), NotANumber)
    else if ParseNamed(s, Ascii("Infinity"), Infinity).Some? then ParseNamed(s, Ascii("Infinity"), Infinity)
    else ParseNamed(s, Ascii("-Infinity"), NegativeInfinity)
  }

  function ParseKeyword(s: bytes, keyword: bytes, l: Literal): (r: Option<(Literal, bytes)>)
    requires keyword != []
    ensures r.Some? ==> |r.value.1| < |s|
  {
    match StripPrefix(s, keyword)
    case None => None
    case Some(rest) => Some((l, rest))
  }

  function ParseLiteral(s: bytes): (r: Option<(Literal, bytes)>)
    ensures r.Some? ==> |r.value.1| < |s|
    decreases |s|, 0
  {
    if s == [] then None
    else if s[0] == 'N' as int then ParseKeyword(s, Ascii("NULL"), Null)
    else if s[0] == 'T' as int then ParseKeyword(s, Ascii("TRUE"), Bool(true))
    else if s[0] == 'F' as int then ParseKeyword(s, Ascii("FALSE"), Bool(false))
    else if s[0] == '(' as int then ParseInteger(s[1..])
    else if s[0] == QUOTE then ParseSpecialFloat(s)
    else if Digit(s[0]) || s[0] == '-' as int then ParseFiniteFloat(s)
    else if s[0] == 'E' as int then
      if StartsWith(s[1..], QUOTE) then ParseQuoted(s[2..]) else None
    else
      match StripPrefix(s, Ascii("ARRAY["))
      case None => None
      case Some(inner) => ParseArrayBody(inner)
  }

  /** The elements and the type, after the opening bracket. */
  function ParseArrayBody(inner: bytes): (r: Option<(Literal, bytes)>)
    ensures r.Some? ==> |r.value.1| < |inner|
    decreases |inner|, 2
  {
    var elements: Option<(seq<Literal>, bytes)> :=
      if StartsWith(inner, RIGHT_BRACKET) then Some(([], inner[1..])) else ParseElements(inner);
    match elements
    case None => None
    case Some((list, rest)) => ParseArrayType(list, rest)
  }

  function ParseArrayType(list: seq<Literal>, s: bytes): (r: Option<(Literal, bytes)>)
    ensures r.Some? ==> |r.value.1| < |s|
  {
    match StripPrefix(s, Ascii("::"))
    case None => None
    case Some(cast) =>
      var n := TypeEnd(cast, false, 0);
      if n >= 2 && cast[n - 2..n] == Ascii("[]") then Some((Array(list, cast[..n - 2]), cast[n..])) else None
  }

  function ParseElements(s: bytes): (r: Option<(seq<Literal>, bytes)>)
    ensures r.Some? ==> |r.value.1| < |s|
    decreases |s|, 1
  {
    match ParseLiteral(s)
    case None => None
    case Some((l, rest)) =>
      if StartsWith(rest, RIGHT_BRACKET) then Some(([l], rest[1..]))
      else if StartsWith(rest, COMMA) then
        match ParseElements(rest[1..])
        case None => None
        case Some((list, end)) => Some(([l] + list, end))
      else None
  }

  // ----- the round trip -----

  /** The literals whose caller-supplied parts have the shape their printers promise. */
  predicate Readable(l: Literal) {
    match l
    case Float(Finite(text)) => FloatText(text)
    case TextCast(_, pgType) => TypeName(pgType)
    case Array(elements, elementType) => TypeName(elementType) && forall e | e in elements :: Readable(e)
    case _ => true
  }

  /** A cast to `bytea` of the text of a byte string stands for that byte string. */
  function Normal(l: Literal): Literal {
    match l
    case TextCast(text, pgType) =>
      if pgType == Ascii("bytea") && ByteaOf(text).Some? then Bytea(ByteaOf(text).value) else l
    case Array(elements, elementType) => Array(NormalAll(elements), elementType)
    case _ => l
  }

  function NormalAll(elements: seq<Literal>): (r: seq<Literal>)
    ensures |r| == |elements|
  {
    if elements == [] then [] else [Normal(elements[0])] + NormalAll(elements[1..])
  }

  /** What may come after a printed literal: the end, or the next piece of an enclosing array. */
  predicate Delimiter(rest: bytes) {
    rest == [] || rest[0] == COMMA || rest[0] == RIGHT_BRACKET
  }

  lemma {:induction false} UnescapeEscaped(text: bytes, rest: bytes)
    ensures Unescape(Escaped(text) + [QUOTE] + rest) == Some((text, rest))
  {
    if text == [] {
      assert Escaped(text) + [QUOTE] + rest == [QUOTE] + rest;
    } else {
      var tail := Escaped(text[1..]) + [QUOTE] + rest;
      UnescapeEscaped(text[1..], rest);
      assert Escaped(text) + [QUOTE] + rest == EscapedByte(text[0]) + tail;
      if |EscapedByte(text[0])| == 2 {
        assert (EscapedByte(text[0]) + tail)[2..] == tail;
      } else {
        assert (EscapedByte(text[0]) + tail)[1..] == tail;
      }
      assert [text[0]] + text[1..] == text;
    }
  }

  lemma {:induction false} UnhexHex(data: bytes)
    ensures Unhex(Hex(data)) == Some(data)
  {
    if data != [] {
      UnhexHex(data[1..]);
      assert Hex(data)[2..] == Hex(data[1..]);
      assert [data[0]] + data[1..] == data;
    }
  }

  lemma {:induction false} EscapedHex(data: bytes)
    ensures Escaped(Hex(data)) == Hex(data)
  {
    if data != [] {
      var high, low := HexDigit(data[0] / 16), HexDigit(data[0] % 16);
      EscapedHex(data[1..]);
      EscapedCons(low, Hex(data[1..]));
      EscapedCons(high, [low] + Hex(data[1..]));
      assert Hex(data) == [high] + ([low] + Hex(data[1..]));
    }
  }

  lemma EscapedCons(b: byte, text: bytes)
    ensures Escaped([b] + text) == EscapedByte(b) + Escaped(text)
  {
    assert ([b] + text)[1..] == text;
  }

  lemma EscapedByteaText(data: bytes)
    ensures Escaped(ByteaText(data)) == [BACKSLASH, BACKSLASH, 120] + Hex(data)
    ensures ByteaOf(ByteaText(data)) == Some(data)
  {
    hide Hex, Unhex, Escaped;
    assert ByteaText(data) == [BACKSLASH] + ([120] + Hex(data));
    EscapedCons(BACKSLASH, [120] + Hex(data));
    EscapedCons(120, Hex(data));
    EscapedHex(data);
    assert ByteaText(data)[2..] == Hex(data);
    UnhexHex(data);
  }

  /** A byte string prints like its text cast to `bytea`. */
  lemma ByteaPrintsAsCast(data: bytes)
    ensures Print(Bytea(data)) == Quoted(ByteaText(data)) + Ascii("::") + Ascii("bytea")
  {
    hide Hex, Escaped;
    EscapedByteaText(data);
    assert Ascii("E'\\\\x") == Ascii("E'") + [BACKSLASH, BACKSLASH, 120];
    assert Ascii("'::bytea") == [QUOTE] + Ascii("::") + Ascii("bytea");
  }

  lemma ParseCast(text: bytes, t: bytes, rest: bytes)
    requires TypeName(t) && Delimiter(rest)
    ensures ParseLiteral(Quoted(text) + Ascii("::") + t + rest) ==
            Some((Normal(TextCast(text, t)), rest))
  {
    hide Escaped, Unescape, ByteaOf, TypeEnd;
    var cast := t + rest;
    var after := Ascii("::") + cast;
    var s := Quoted(text) + Ascii("::") + t + rest;
    assert s == Ascii("E'") + (Escaped(text) + [QUOTE] + after);
    assert s[1..][0] == QUOTE;
    assert s[2..] == Escaped(text) + [QUOTE] + after;
    UnescapeEscaped(text, after);
    StripAppend(Ascii("::"), cast);
    TypeEndIs(t, false, 0, rest);
  }

  lemma ParseText(text: bytes, rest: bytes)
    requires Delimiter(rest)
    ensures ParseLiteral(Quoted(text) + rest) == Some((Text(text), rest))
  {
    hide Escaped, Unescape, ByteaOf, TypeEnd;
    var s := Quoted(text) + rest;
    assert s == Ascii("E'") + (Escaped(text) + [QUOTE] + rest);
    assert s[1..][0] == QUOTE;
    assert s[2..] == Escaped(text) + [QUOTE] + rest;
    UnescapeEscaped(text, rest);
    assert rest != [] ==> rest[0] != Ascii("::")[0];
  }

  lemma ParseWidthSuffix(width: IntegerWidth, rest: bytes)
    ensures ParseWidth(TypeSuffix(width) + rest) == Some((width, rest))
  {
    var s := TypeSuffix(width) + rest;
    StripAppend(TypeSuffix(width), rest);
    assert s[3] == TypeSuffix(width)[3];
    assert TypeSuffix(I16)[3] == 's' as int && TypeSuffix(I32)[3] == 'i' as int && TypeSuffix(I64)[3] == 'b' as int;
  }

  lemma ParseMagnitudePrinted(negative: bool, n: nat, width: IntegerWidth, rest: bytes)
    ensures ParseMagnitude(negative, Decimal(n) + (TypeSuffix(width) + rest)) ==
            Some((Integer(width, if negative then 0 - n else n + 0), rest))
  {
    hide DecimalValue, DigitsEnd, ParseWidth, Decimal;
    var digits, tail := Decimal(n), TypeSuffix(width) + rest;
    var s := digits + tail;
    assert s[..|digits|] == digits && s[|digits|..] == tail;
    assert tail[0] == TypeSuffix(width)[0] == ')' as int;
    DigitsEndIsGrammar(s, |digits|);
    ParseWidthSuffix(width, rest);
  }

  lemma ParseIntegerPrinted(width: IntegerWidth, value: int, rest: bytes)
    ensures ParseInteger(SignedDecimal(value) + TypeSuffix(width) + rest) == Some((Integer(width, value), rest))
  {
    hide ParseMagnitude, Decimal, TypeSuffix;
    var n := if value < 0 then -value else value;
    var unsigned := Decimal(n) + (TypeSuffix(width) + rest);
    var s := SignedDecimal(value) + TypeSuffix(width) + rest;
    if value < 0 {
      assert s == [DASH] + unsigned;
      assert s[1..] == unsigned;
    } else {
      assert s == unsigned;
      assert Digit(s[0]);
    }
    ParseMagnitudePrinted(value < 0, n, width, rest);
  }

  /** An integer prints as its sign and digits in parentheses, cast to the type of its width. */
  lemma IntegerPrints(value: int)
    ensures var sign := if value < 0 then Ascii("(-") else Ascii("(");
            var digits := Decimal(if value < 0 then -value else value);
            && Print(Integer(I16, value)) == sign + digits + Ascii(")::smallint")
            && Print(Integer(I32, value)) == sign + digits + Ascii(")::integer")
            && Print(Integer(I64, value)) == sign + digits + Ascii(")::bigint")
  {
    hide Decimal, TypeSuffix;
    assert Ascii("(-") == Ascii("(") + [DASH];
    WidthsPrint();
  }

  lemma WidthsPrint()
    ensures TypeSuffix(I16) == Ascii(")::smallint") && TypeSuffix(I32) == Ascii(")::integer")
    ensures TypeSuffix(I64) == Ascii(")::bigint")
  {
  }

  lemma ParseKeywordPrinted(keyword: bytes, l: Literal, rest: bytes)
    requires keyword != []
    ensures ParseKeyword(keyword + rest, keyword, l) == Some((l, rest))
  {
    StripAppend(keyword, rest);
  }

  lemma ParseArrayTypePrinted(list: seq<Literal>, t: bytes, rest: bytes)
    requires TypeName(t) && Delimiter(rest)
    ensures ParseArrayType(list, Ascii("::") + t + Ascii("[]") + rest) == Some((Array(list, t), rest))
  {
    hide TypeEnd, TypeNameFrom;
    var name := t + Ascii("[]");
    var cast := name + rest;
    assert Ascii("::") + t + Ascii("[]") + rest == Ascii("::") + cast;
    StripAppend(Ascii("::"), cast);
    ArrayTypeName(t);
    TypeEndIs(name, false, 0, rest);
    assert cast[|name| - 2..|name|] == Ascii("[]") && cast[..|name| - 2] == t;
  }

  lemma {:induction false} FloatEndIs(t: bytes, rest: bytes)
    requires (forall i | 0 <= i < |t| :: FloatByte(t[i])) && (rest == [] || !FloatByte(rest[0]))
    ensures FloatEnd(t + rest) == |t| && (t + rest)[..|t|] == t && (t + rest)[|t|..] == rest
  {
    if t == [] {
      assert t + rest == rest;
    } else {
      assert (t + rest)[1..] == t[1..] + rest;
      FloatEndIs(t[1..], rest);
    }
  }

  lemma ParseFinitePrinted(text: bytes, rest: bytes)
    requires FloatText(text)
    ensures ParseLiteral(Print(Float(Finite(text))) + rest) == Some((Float(Finite(text)), rest))
  {
    hide FloatEnd;
    var tail := Ascii("::double precision") + rest;
    var s := Print(Float(Finite(text))) + rest;
    assert s == text + tail && s[0] == text[0];
    assert tail[0] == Ascii("::double precision")[0] == ':' as int;
    FloatEndIs(text, tail);
    StripAppend(Ascii("::double precision"), rest);
  }

  lemma ParseNamedPrinted(name: bytes, float: FloatValue, rest: bytes, other: bytes)
    requires name != [] && other != []
    ensures ParseNamed([QUOTE] + name + [QUOTE] + Ascii("::double precision") + rest, name, float) == Some((Float(float), rest))
    ensures name[0] != other[0] ==>
              ParseNamed([QUOTE] + name + [QUOTE] + Ascii("::double precision") + rest, other, float) == None
  {
    hide Ascii;
    StripAppend([QUOTE] + name + [QUOTE] + Ascii("::double precision"), rest);
    var s := [QUOTE] + name + [QUOTE] + Ascii("::double precision") + rest;
    var p := [QUOTE] + other + [QUOTE] + Ascii("::double precision");
    assert s[1] == name[0] && p[1] == other[0];
  }

  lemma NoOtherName(s: bytes, name: bytes, a: FloatValue, b: FloatValue)
    ensures ParseNamed(s, name, a) == None <==> ParseNamed(s, name, b) == None
  {
  }

  lemma ParseSpecialText(float: FloatValue, rest: bytes)
    requires !float.Finite?
    ensures ParseSpecialFloat(PrintFloat(float) + rest) == Some((Float(float), rest))
  {
    var nan, inf, negative := Ascii("NaN"), Ascii("Infinity"), Ascii("-Infinity");
    var name := if float.NotANumber? then nan else if float.Infinity? then inf else negative;
    assert nan[0] == 'N' as int && inf[0] == 'I' as int && negative[0] == '-' as int;
    var s := PrintFloat(float) + rest;
    assert s == [QUOTE] + name + [QUOTE] + Ascii("::double precision") + rest;
    hide Ascii, PrintFloat, ParseNamed;
    ParseNamedPrinted(name, float, rest, nan);
    ParseNamedPrinted(name, float, rest, inf);
    NoOtherName(s, nan, float, NotANumber);
    NoOtherName(s, inf, float, Infinity);
  }

  lemma ParseSpecialPrinted(float: FloatValue, rest: bytes)
    requires !float.Finite?
    ensures ParseLiteral(Print(Float(float)) + rest) == Some((Float(float), rest))
  {
    ParseSpecialText(float, rest);
    hide ParseSpecialFloat, Ascii;
    assert PrintFloat(float)[0] == QUOTE;
  }

  lemma ParseKeywordLiteral(l: Literal, rest: bytes)
    requires l.Null? || l.Bool?
    ensures ParseLiteral(Print(l) + rest) == Some((l, rest))
  {
    ParseKeywordPrinted(Print(l), l, rest);
    assert Ascii("NULL")[0] == 'N' as int && Ascii("TRUE")[0] == 'T' as int && Ascii("FALSE")[0] == 'F' as int;
  }

  lemma ParseIntegerLiteral(width: IntegerWidth, value: int, rest: bytes)
    ensures ParseLiteral(Print(Integer(width, value)) + rest) == Some((Integer(width, value), rest))
  {
    hide ParseInteger, SignedDecimal, TypeSuffix;
    var s := Print(Integer(width, value)) + rest;
    assert s[0] == Ascii("(")[0];
    assert s[1..] == SignedDecimal(value) + TypeSuffix(width) + rest;
    ParseIntegerPrinted(width, value, rest);
  }

  /** Every literal is recovered from its printed text, in normal form, with what follows it. */
  lemma {:induction false} ParsePrint(l: Literal, rest: bytes)
    requires Readable(l) && Delimiter(rest)
    ensures ParseLiteral(Print(l) + rest) == Some((Normal(l), rest))
    decreases l, 0
  {
    hide ParseLiteral, ParseElements, Escaped, Hex, SignedDecimal, FloatText, TypeName;
    match l
    case Null =>
      ParseKeywordLiteral(l, rest);
    case Bool(_) =>
      ParseKeywordLiteral(l, rest);
    case Integer(width, value) =>
      ParseIntegerLiteral(width, value, rest);
    case Float(float) =>
      if float.Finite? {
        ParseFinitePrinted(float.text, rest);
      } else {
        ParseSpecialPrinted(float, rest);
      }
    case Text(text) =>
      ParseText(text, rest);
    case Bytea(data) =>
      ByteaPrintsAsCast(data);
      EscapedByteaText(data);
      ByteaIsTypeName();
      ParseCast(ByteaText(data), Ascii("bytea"), rest);
    case TextCast(text, pgType) =>
      ParseCast(text, pgType, rest);
    case Array(elements, elementType) =>
      if elements != [] {
        ParsePrintElements(elements, Ascii("::") + elementType + Ascii("[]") + rest);
        assert elements[0] in elements;
        PrintStart(elements[0]);
      }
      ParseArrayPrinted(elements, elementType, rest);
  }

  lemma ByteaIsTypeName()
    ensures TypeName(Ascii("bytea"))
  {
    PlainTypeName(Ascii("bytea"));
  }

  lemma ParseArrayPrinted(elements: seq<Literal>, elementType: bytes, rest: bytes)
    requires TypeName(elementType) && Delimiter(rest)
    requires elements != [] ==>
               && PrintElements(elements) != [] && PrintElements(elements)[0] != RIGHT_BRACKET
               && ParseElements(PrintElements(elements) + [RIGHT_BRACKET] + (Ascii("::") + elementType + Ascii("[]") + rest))
                  == Some((NormalAll(elements), Ascii("::") + elementType + Ascii("[]") + rest))
    ensures ParseLiteral(Print(Array(elements, elementType)) + rest) == Some((Normal(Array(elements, elementType)), rest))
  {
    hide ParseLiteral, ParseElements, ParseArrayType, TypeName, Print;
    var tail := Ascii("::") + elementType + Ascii("[]") + rest;
    var inner := PrintElements(elements) + [RIGHT_BRACKET] + tail;
    ArrayShape(elements, elementType, rest);
    ParseArrayOpens(inner);
    ParseArrayTypePrinted(NormalAll(elements), elementType, rest);
    if elements == [] {
      assert inner == [RIGHT_BRACKET] + tail;
      assert inner[1..] == tail;
    }
  }

  lemma ParseArrayOpens(inner: bytes)
    ensures ParseLiteral(Ascii("ARRAY[") + inner) == ParseArrayBody(inner)
  {
    hide ParseArrayBody;
    StripAppend(Ascii("ARRAY["), inner);
    assert Ascii("ARRAY[")[0] == 'A' as int;
  }

  lemma ArrayShape(elements: seq<Literal>, elementType: bytes, rest: bytes)
    ensures Print(Array(elements, elementType)) + rest ==
            Ascii("ARRAY[") + (PrintElements(elements) + [RIGHT_BRACKET] + (Ascii("::") + elementType + Ascii("[]") + rest))
  {
    hide PrintElements;
    assert Ascii("]::") == [RIGHT_BRACKET] + Ascii("::");
  }

  /** No printed literal starts like the end of an array. */
  lemma PrintStart(l: Literal)
    requires Readable(l)
    ensures Print(l) != [] && Print(l)[0] != RIGHT_BRACKET
  {
  }

  lemma {:induction false} ParsePrintElements(elements: seq<Literal>, rest: bytes)
    requires elements != [] && forall e | e in elements :: Readable(e)
    ensures ParseElements(PrintElements(elements) + [RIGHT_BRACKET] + rest) == Some((NormalAll(elements), rest))
    ensures PrintElements(elements) != [] && PrintElements(elements)[0] == Print(elements[0])[0]
    decreases elements, 1
  {
    hide Print, ParseLiteral, Readable, Normal;
    var s := PrintElements(elements) + [RIGHT_BRACKET] + rest;
    assert elements[0] in elements;
    PrintStart(elements[0]);
    if |elements| == 1 {
      var after := [RIGHT_BRACKET] + rest;
      assert s == Print(elements[0]) + after;
      ParsePrint(elements[0], after);
      assert after[1..] == rest && elements[1..] == [];
      assert NormalAll(elements) == [Normal(elements[0])];
    } else {
      var tail := PrintElements(elements[1..]) + [RIGHT_BRACKET] + rest;
      var after := [COMMA] + tail;
      assert s == Print(elements[0]) + after;
      ParsePrint(elements[0], after);
      ParsePrintElements(elements[1..], rest);
      assert after[1..] == tail;
    }
  }

  // ----- when two literals print alike -----

  lemma {:induction false} HexUnhex(s: bytes)
    requires Unhex(s).Some?
    ensures Hex(Unhex(s).value) == s
  {
    if s != [] {
      HexUnhex(s[2..]);
      var data := Unhex(s).value;
      assert data[1..] == Unhex(s[2..]).value;
      assert s == [s[0], s[1]] + s[2..];
    }
  }

  lemma ByteaTextOf(text: bytes)
    requires ByteaOf(text).Some?
    ensures ByteaText(ByteaOf(text).value) == text
  {
    hide Hex, Unhex;
    HexUnhex(text[2..]);
    assert text == [BACKSLASH, 120] + text[2..];
  }

  /** A literal prints like its normal form. */
  lemma {:induction false} NormalPrintsAlike(l: Literal)
    ensures Print(Normal(l)) == Print(l)
    decreases l, 0
  {
    match l
    case TextCast(text, pgType) =>
      if pgType == Ascii("bytea") && ByteaOf(text).Some? {
        hide Print, ByteaOf, ByteaText;
        ByteaTextOf(text);
        ByteaCastIsAmbiguous(ByteaOf(text).value);
      }
    case Array(elements, elementType) =>
      NormalElementsPrintAlike(elements);
    case _ =>
  }

  lemma {:induction false} NormalElementsPrintAlike(elements: seq<Literal>)
    ensures PrintElements(NormalAll(elements)) == PrintElements(elements)
    decreases elements, 1
  {
    hide Print, Normal;
    if elements != [] {
      NormalPrintsAlike(elements[0]);
      NormalElementsPrintAlike(elements[1..]);
      assert NormalAll(elements)[1..] == NormalAll(elements[1..]);
    }
  }

  /** Two literals print alike exactly when they have the same normal form. */
  lemma PrintAlikeExactly(a: Literal, b: Literal)
    requires Readable(a) && Readable(b)
    ensures Print(a) == Print(b) <==> Normal(a) == Normal(b)
  {
    hide Print, Normal, ParseLiteral;
    ParsePrint(a, []);
    ParsePrint(b, []);
    assert Print(a) + [] == Print(a) && Print(b) + [] == Print(b);
    NormalPrintsAlike(a);
    NormalPrintsAlike(b);
  }

  /** Hence printing is injective on literals in normal form. */
  lemma PrintInjective(a: Literal, b: Literal)
    requires Readable(a) && Readable(b) && Normal(a) == a && Normal(b) == b && Print(a) == Print(b)
    ensures a == b
  {
    PrintAlikeExactly(a, b);
  }

  /** Why text cast to `bytea` is set apart. */
  lemma ByteaCastIsAmbiguous(data: bytes)
    ensures Print(Bytea(data)) == Print(TextCast(ByteaText(data), Ascii("bytea")))
  {
    ByteaPrintsAsCast(data);
  }

  /** Why commas that stand outside brackets are kept out of type names. */
  lemma CommaInTypeIsAmbiguous(text: bytes, t: bytes, elementType: bytes)
    ensures Print(Array([TextCast(text, t + Ascii(",NULL"))], elementType)) ==
            Print(Array([TextCast(text, t), Null], elementType))
  {
    var one, two := [TextCast(text, t + Ascii(",NULL"))], [TextCast(text, t), Null];
    assert two[1..] == [Null];
    assert Ascii(",NULL") == [COMMA] + Ascii("NULL");
    assert PrintElements([Null]) == Ascii("NULL");
    assert PrintElements(two) == Print(two[0]) + [COMMA] + Ascii("NULL");
    assert PrintElements(one) == PrintElements(two);
  }

  /** The end of a printed array, in front of its element type. */
  function ArrayCast(): bytes {
    Ascii("]::")
  }

  /** Why brackets have to be balanced. */
  lemma UnbalancedTypeIsAmbiguous(text: bytes, t: bytes, u: bytes, v: bytes)
    ensures Print(Array([TextCast(text, t + ArrayCast() + u)], v)) == Print(Array([TextCast(text, t)], u + ArrayCast() + v))
  {
    hide Escaped;
    var q, close := Quoted(text) + Ascii("::"), ArrayCast();
    assert Print(TextCast(text, t + close + u)) == q + t + close + u;
    assert PrintElements([TextCast(text, t + close + u)]) == q + t + close + u;
    assert PrintElements([TextCast(text, t)]) == q + t;
  }

  /** Why quoted parts have to be closed. */
  lemma OpenQuoteInTypeIsAmbiguous(x: bytes, t: bytes, y: bytes, u: bytes, elementType: bytes)
    ensures Print(Array([TextCast(x, [DOUBLE_QUOTE] + t), TextCast(y, u + [DOUBLE_QUOTE])], elementType)) ==
            Print(Array([TextCast(x, [DOUBLE_QUOTE] + t + [COMMA] + Quoted(y) + Ascii("::") + u + [DOUBLE_QUOTE])], elementType))
  {
    hide Escaped;
    var q := [DOUBLE_QUOTE];
    var two := [TextCast(x, q + t), TextCast(y, u + q)];
    var one := [TextCast(x, q + t + [COMMA] + Quoted(y) + Ascii("::") + u + q)];
    assert two[1..] == [two[1]];
    assert PrintElements(two[1..]) == Print(two[1]);
    assert PrintElements(two) == Print(two[0]) + [COMMA] + Print(two[1]);
    assert PrintElements(one) == Print(one[0]);
    assert PrintElements(one) == PrintElements(two);
  }

  /** Whatever the value, its quoted literal ends at its own last quote. */
  lemma {:induction false} QuotedEndsAtItsOwnQuote(text: bytes, rest: bytes)
    requires !StartsWith(rest, QUOTE)
    ensures QuotedEnd(QUOTE, true, Escaped(text) + [QUOTE] + rest) == Some(|Escaped(text)| + 1)
  {
    var s := Escaped(text) + [QUOTE] + rest;
    EscapedIsBody(text);
    assert s[..|Escaped(text)|] == Escaped(text);
    assert s[|Escaped(text)| + 1..] == rest;
    QuotedEndIsGrammar(QUOTE, true, s, |Escaped(text)| + 1);
  }

  lemma {:induction false} EscapedIsBody(text: bytes)
    ensures QuotedBody(QUOTE, true, Escaped(text))
  {
    if text != [] {
      EscapedIsBody(text[1..]);
      var e := EscapedByte(text[0]);
      assert Escaped(text)[|e|..] == Escaped(text[1..]);
    }
  }
}
