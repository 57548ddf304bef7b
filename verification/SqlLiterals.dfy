/**
  The printer of bound values as Postgres literals; `SqlLiteralParser` inverts it.

  Text is handled as UTF-8 bytes: only ASCII bytes are escaped, so working byte by byte and
  character by character come to the same.
 */
module SqlLiterals {
  import opened Basics
  import opened SqlGrammar

  const COMMA: byte := 44
  const LEFT_BRACKET: byte := 91
  const RIGHT_BRACKET: byte := 93
  const LEFT_PARENTHESIS: byte := 40
  const RIGHT_PARENTHESIS: byte := 41

  datatype IntegerWidth = I16 | I32 | I64

  /** A finite float is carried as the text the formatter produced for it. */
  datatype FloatValue = Finite(text: bytes) | NotANumber | Infinity | NegativeInfinity

  datatype Literal =
    | Null
    | Bool(flag: bool)
    | Integer(width: IntegerWidth, value: int)
    | Float(float: FloatValue)
    | Text(text: bytes)
    | Bytea(data: bytes)
    | TextCast(castText: bytes, pgType: bytes)
    | Array(elements: seq<Literal>, elementType: bytes)

  // ----- printing -----

  function Decimal(n: nat): (s: bytes)
    ensures s != [] && AllDigits(s) && DecimalValue(s) == n && (|s| > 1 ==> s[0] != 48)
  {
    if n < 10 then
      assert [48 + n][..0] == [];
      [48 + n]
    else
      var s := Decimal(n / 10) + [48 + n % 10];
      assert s[..|s| - 1] == Decimal(n / 10);
      s
  }

  function SignedDecimal(n: int): bytes {
    if n < 0 then [DASH] + Decimal(-n) else Decimal(n)
  }

  function TypeSuffix(width: IntegerWidth): bytes {
    match width
    case I16 => Ascii(")::smallint")
    case I32 => Ascii(")::integer")
    case I64 => Ascii(")::bigint")
  }

  function HexDigit(n: int): byte
    requires 0 <= n < 16
  {
    if n < 10 then 48 + n else 87 + n
  }

  function Hex(data: bytes): bytes {
    if data == [] then [] else [HexDigit(data[0] / 16), HexDigit(data[0] % 16)] + Hex(data[1..])
  }

  function EscapedByte(b: byte): bytes {
    if b == BACKSLASH then [BACKSLASH, BACKSLASH] else if b == QUOTE then [BACKSLASH, QUOTE] else [b]
  }

  function Escaped(text: bytes): bytes {
    if text == [] then [] else EscapedByte(text[0]) + Escaped(text[1..])
  }

  function Quoted(text: bytes): bytes {
    Ascii("E'") + Escaped(text) + [QUOTE]
  }

  /** A special float is a quoted name: 'NaN', 'Infinity' or '-Infinity'. */
  function QuotedName(name: bytes): bytes {
    [QUOTE] + name + [QUOTE] + Ascii("::double precision")
  }

  function PrintFloat(float: FloatValue): bytes {
    match float
    case Finite(text) => text + Ascii("::double precision")
    case NotANumber => QuotedName(Ascii("NaN"))
    case Infinity => QuotedName(Ascii("Infinity"))
    case NegativeInfinity => QuotedName(Ascii("-Infinity"))
  }

  /** The text of a byte string before escaping: a backslash, an x and the hex digits. */
  function ByteaText(data: bytes): bytes {
    [BACKSLASH, 120] + Hex(data)
  }

  function Print(l: Literal): bytes {
    match l
    case Null => Ascii("NULL")
    case Bool(flag) => if flag then Ascii("TRUE") else Ascii("FALSE")
    case Integer(width, value) => Ascii("(") + SignedDecimal(value) + TypeSuffix(width)
    case Float(float) => PrintFloat(float)
    case Text(text) => Quoted(text)
    case Bytea(data) => Ascii("E'\\\\x") + Hex(data) + Ascii("'::bytea")
    case TextCast(text, pgType) => Quoted(text) + Ascii("::") + pgType
    case Array(elements, elementType) => Bracketed(PrintElements(elements), elementType)
  }

  function Bracketed(inner: bytes, elementType: bytes): bytes {
    Ascii("ARRAY[") + inner + Ascii("]::") + elementType + Ascii("[]")
  }

  function PrintElements(elements: seq<Literal>): bytes {
    if elements == [] then []
    else if |elements| == 1 then Print(elements[0])
    else Print(elements[0]) + [COMMA] + PrintElements(elements[1..])
  }

  predicate FloatByte(b: byte) {
    Digit(b) || b == 46 || b == 101 || b == DASH
  }

  /** The text a formatter produces for a finite float: digits, a point, an exponent, and a sign
      in front of the whole or of the exponent. */
  predicate FloatText(t: bytes) {
    && t != [] && (Digit(t[0]) || t[0] == DASH)
    && (forall i | 0 <= i < |t| :: FloatByte(t[i]))
    && (forall i | 0 < i < |t| && t[i] == DASH :: t[i - 1] == 101)
  }

  /** Postgres text cannot hold a NUL byte; that is the only thing the printer refuses. */
  predicate Encodable(l: Literal) {
    match l
    case Text(text) => 0 !in text
    case TextCast(text, _) => 0 !in text
    case Array(elements, _) => forall e | e in elements :: Encodable(e)
    case _ => true
  }

  lemma PrintElementsAppend(elements: seq<Literal>, i: nat)
    requires i < |elements|
    ensures PrintElements(elements[..i + 1]) ==
            PrintElements(elements[..i]) + (if i > 0 then [COMMA] else []) + Print(elements[i])
  {
    hide Print;
    var all := elements[..i + 1];
    if i > 0 {
      PrintElementsAppend(elements[1..], i - 1);
      assert all[1..] == elements[1..][..i];
      assert elements[..i][1..] == elements[1..][..i - 1];
      assert elements[1..][i - 1] == elements[i];
      if i == 1 {
        assert elements[1..][..0] == [];
      }
    }
  }

  /** The growing text the encoders append to. */
  class SqlText {
    var sql: bytes

    constructor ()
      ensures sql == []
    {
      sql := [];
    }

    method Push(text: bytes)
      modifies this
      ensures sql == old(sql) + text
    {
      sql := sql + text;
    }

    method EncodeText(value: bytes) returns (ok: bool)
      modifies this
      ensures ok <==> 0 !in value
      ensures sql == if ok then old(sql) + Quoted(value) else old(sql)
    {
      if 0 in value {
        return false;
      }
      Push(Ascii("E'"));
      assert value[..0] == [];
      for i := 0 to |value|
        invariant sql == old(sql) + Ascii("E'") + Escaped(value[..i])
      {
        EscapedAppend(value, i);
        if value[i] == BACKSLASH {
          Push([BACKSLASH, BACKSLASH]);
        } else if value[i] == QUOTE {
          Push([BACKSLASH, QUOTE]);
        } else {
          Push([value[i]]);
        }
      }
      assert value[..|value|] == value;
      Push([QUOTE]);
      return true;
    }

    method EncodeBytea(data: bytes)
      modifies this
      ensures sql == old(sql) + Print(Bytea(data))
    {
      Push(Ascii("E'\\\\x"));
      assert data[..0] == [];
      for i := 0 to |data|
        invariant sql == old(sql) + Ascii("E'\\\\x") + Hex(data[..i])
      {
        HexAppend(data, i);
        Push([HexDigit(data[i] / 16), HexDigit(data[i] % 16)]);
      }
      assert data[..|data|] == data;
      Push(Ascii("'::bytea"));
    }

    /** Appends the printed literal, or reports that some text in it holds a NUL byte; what was
        already there is never touched. */
    method Encode(l: Literal) returns (ok: bool)
      modifies this
      decreases l, 0
      ensures ok <==> Encodable(l)
      ensures ok ==> sql == old(sql) + Print(l)
      ensures old(sql) <= sql
    {
      hide Quoted, Bracketed, PrintElements, PrintFloat, Hex, Ascii;
      ok := true;
      match l {
        case Text(text) =>
          ok := EncodeText(text);
        case Bytea(data) =>
          EncodeBytea(data);
        case TextCast(text, pgType) =>
          ok := EncodeText(text);
          if !ok {
            return;
          }
          Push(Ascii("::"));
          Push(pgType);
        case Array(elements, elementType) =>
          ok := EncodeArray(elements, elementType);
        case _ =>
          Push(Print(l));
      }
    }

    method EncodeArray(elements: seq<Literal>, elementType: bytes) returns (ok: bool)
      modifies this
      decreases elements, 2
      ensures ok <==> forall e | e in elements :: Encodable(e)
      ensures ok ==> sql == old(sql) + Bracketed(PrintElements(elements), elementType)
      ensures old(sql) <= sql
    {
      hide Print, PrintElements;
      Push(Ascii("ARRAY["));
      ok := EncodeElements(elements);
      if !ok {
        return;
      }
      Push(Ascii("]::"));
      Push(elementType);
      Push(Ascii("[]"));
    }

    method EncodeElements(elements: seq<Literal>) returns (ok: bool)
      modifies this
      decreases elements, 1
      ensures ok <==> forall e | e in elements :: Encodable(e)
      ensures ok ==> sql == old(sql) + PrintElements(elements)
      ensures old(sql) <= sql
    {
      hide Print, PrintElements;
      assert elements[..0] == [];
      PrintNoElements();
      for i := 0 to |elements|
        invariant sql == old(sql) + PrintElements(elements[..i])
        invariant forall k | 0 <= k < i :: Encodable(elements[k])
      {
        PrintElementsAppend(elements, i);
        if i > 0 {
          Push([COMMA]);
        }
        ok := Encode(elements[i]);
        if !ok {
          return;
        }
      }
      assert elements[..|elements|] == elements;
      return true;
    }
  }

  lemma PrintNoElements()
    ensures PrintElements([]) == []
  {
  }

  lemma EscapedAppend(text: bytes, i: nat)
    requires i < |text|
    ensures Escaped(text[..i + 1]) == Escaped(text[..i]) + EscapedByte(text[i])
  {
    if i == 0 {
      assert text[..1] == [text[0]] && text[..0] == [];
    } else {
      EscapedAppend(text[1..], i - 1);
      assert text[..i + 1][1..] == text[1..][..i];
      assert text[..i][1..] == text[1..][..i - 1];
    }
  }

  lemma HexAppend(data: bytes, i: nat)
    requires i < |data|
    ensures Hex(data[..i + 1]) == Hex(data[..i]) + [HexDigit(data[i] / 16), HexDigit(data[i] % 16)]
  {
    if i == 0 {
      assert data[..1] == [data[0]] && data[..0] == [];
    } else {
      HexAppend(data[1..], i - 1);
      assert data[..i + 1][1..] == data[1..][..i];
      assert data[..i][1..] == data[1..][..i - 1];
    }
  }
}
