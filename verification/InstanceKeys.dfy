/**
  Schema instance keys: a labelled list of quoted table names in one string. With identifiers as
  labels the string determines the list; with arbitrary labels it does exactly when no label looks
  like several entries.
 */
module InstanceKeys {
  import opened Basics

  const QUOTE: byte := '"' as int
  const DOT: byte := '.' as int
  const EQUALS: byte := '=' as int
  const SEMICOLON: byte := ';' as int
  const MAX_IDENTIFIER_BYTES := 63

  predicate IdentifierByte(b: byte) {
    'a' as int <= b <= 'z' as int || 'A' as int <= b <= 'Z' as int || '0' as int <= b <= '9' as int || b == '_' as int
  }

  predicate GoodIdentifier(s: bytes) {
    && 0 < |s| <= MAX_IDENTIFIER_BYTES && !('0' as int <= s[0] <= '9' as int)
    && forall i | 0 <= i < |s| :: IdentifierByte(s[i])
  }

  datatype TableName = TableName(schema: Option<bytes>, table: bytes)

  predicate GoodTable(t: TableName) {
    GoodIdentifier(t.table) && (t.schema.Some? ==> GoodIdentifier(t.schema.value))
  }

  function QuotedIdentifier(s: bytes): bytes {
    [QUOTE] + s + [QUOTE]
  }

  function Quoted(t: TableName): bytes {
    if t.schema.Some? then QuotedIdentifier(t.schema.value) + [DOT] + QuotedIdentifier(t.table)
    else QuotedIdentifier(t.table)
  }

  datatype Part = Part(name: bytes, table: TableName)

  predicate GoodParts(parts: seq<Part>) {
    forall p | p in parts :: GoodTable(p.table)
  }

  function PartText(p: Part): bytes {
    p.name + [EQUALS] + Quoted(p.table)
  }

  function InstanceKey(parts: seq<Part>): bytes
    decreases |parts|, 0
  {
    if parts == [] then []
    else PartText(parts[0]) + Following(parts[1..])
  }

  /** The rest of a key after an entry. */
  function Following(parts: seq<Part>): bytes
    decreases |parts|, 1
  {
    if parts == [] then [] else [SEMICOLON] + InstanceKey(parts)
  }

  // ----- quoted names -----

  lemma IdentifierBytes(s: bytes)
    requires GoodIdentifier(s)
    ensures forall i | 0 <= i < |s| :: s[i] !in {QUOTE, DOT, EQUALS, SEMICOLON}
  {
    forall i | 0 <= i < |s|
      ensures s[i] !in {QUOTE, DOT, EQUALS, SEMICOLON}
    {
      assert IdentifierByte(s[i]);
    }
  }

  /** Neither separator occurs in a quoted name. */
  lemma QuotedBytes(t: TableName)
    requires GoodTable(t)
    ensures forall i | 0 <= i < |Quoted(t)| :: Quoted(t)[i] !in {EQUALS, SEMICOLON}
    ensures |Quoted(t)| > 0
  {
    IdentifierBytes(t.table);
    if t.schema.Some? {
      IdentifierBytes(t.schema.value);
    }
  }

  lemma QuotedIdentifierPrefix(a: bytes, b: bytes, restA: bytes, restB: bytes)
    requires GoodIdentifier(a) && GoodIdentifier(b) && QuotedIdentifier(a) + restA == QuotedIdentifier(b) + restB
    ensures a == b && restA == restB
  {
    IdentifierBytes(a);
    IdentifierBytes(b);
    hide GoodIdentifier;
    var s := QuotedIdentifier(a) + restA;
    assert forall i | 0 <= i < |a| :: s[1 + i] == a[i];
    assert forall i | 0 <= i < |b| :: s[1 + i] == b[i];
    assert s[1 + |a|] == QUOTE && s[1 + |b|] == QUOTE;
    assert |a| == |b|;
    assert s[1..1 + |a|] == a && s[1..1 + |b|] == b;
    assert s[2 + |a|..] == restA && s[2 + |b|..] == restB;
  }

  /** A quoted name ends at the separator that follows it, or with the text. */
  predicate Ends(rest: bytes) {
    rest == [] || rest[0] == SEMICOLON
  }

  function FirstName(t: TableName): bytes {
    if t.schema.Some? then t.schema.value else t.table
  }

  /** What follows the first name: the table of a qualified name, then the rest. */
  function AfterFirst(t: TableName, rest: bytes): bytes {
    if t.schema.Some? then [DOT] + (QuotedIdentifier(t.table) + rest) else rest
  }

  lemma QuotedInTwo(t: TableName, rest: bytes)
    requires GoodTable(t)
    ensures Quoted(t) + rest == QuotedIdentifier(FirstName(t)) + AfterFirst(t, rest)
    ensures GoodIdentifier(FirstName(t))
    ensures Ends(rest) ==> (t.schema.Some? <==> AfterFirst(t, rest) != [] && AfterFirst(t, rest)[0] == DOT)
  {
    hide GoodIdentifier, QuotedIdentifier;
  }

  lemma QuotedPrefix(a: TableName, b: TableName, restA: bytes, restB: bytes)
    requires GoodTable(a) && GoodTable(b) && Ends(restA) && Ends(restB)
    requires Quoted(a) + restA == Quoted(b) + restB
    ensures a == b && restA == restB
  {
    QuotedInTwo(a, restA);
    QuotedInTwo(b, restB);
    hide GoodIdentifier, QuotedIdentifier, Ends, Quoted;
    QuotedIdentifierPrefix(FirstName(a), FirstName(b), AfterFirst(a, restA), AfterFirst(b, restB));
    if a.schema.Some? {
      assert AfterFirst(a, restA)[1..] == QuotedIdentifier(a.table) + restA;
      assert AfterFirst(b, restB)[1..] == QuotedIdentifier(b.table) + restB;
      QuotedIdentifierPrefix(a.table, b.table, restA, restB);
    }
  }

  // ----- when a key determines its parts -----

  /** A label that reads as an entry, a separator and another label. */
  ghost predicate LooksLikeEntries(name: bytes) {
    exists x: bytes, t: TableName, y: bytes :: SplitsAs(name, x, t, y)
  }

  predicate SplitsAs(name: bytes, x: bytes, t: TableName, y: bytes) {
    GoodTable(t) && name == x + [EQUALS] + Quoted(t) + [SEMICOLON] + y
  }

  lemma FollowingEnds(parts: seq<Part>)
    ensures Ends(Following(parts))
  {
  }

  /** If two entries begin the same text and one label is shorter, the longer looks like entries. */
  lemma ShorterLabel(a: Part, b: Part, restA: bytes, restB: bytes)
    requires GoodTable(a.table) && Ends(restA) && |a.name| < |b.name|
    requires PartText(a) + restA == PartText(b) + restB
    ensures LooksLikeEntries(b.name)
  {
    QuotedBytes(a.table);
    hide Quoted, GoodTable, SplitsAs;
    var s, q, n := PartText(a) + restA, Quoted(a.table), |a.name|;
    assert s == PartText(b) + restB;
    assert s[|b.name|] == EQUALS && b.name == s[..|b.name|];
    assert s[..n] == a.name && s[n] == EQUALS && s[n + 1..n + 1 + |q|] == q && s[n + 1 + |q|..] == restA;
    assert forall i | n < i < n + 1 + |q| :: s[i] == q[i - n - 1];
    assert |b.name| >= n + 1 + |q|;
    assert restA != [] && s[n + 1 + |q|] == SEMICOLON;
    var y := s[n + 2 + |q|..|b.name|];
    assert b.name == a.name + [EQUALS] + q + [SEMICOLON] + y;
    SplitsHere(b.name, a.name, a.table, y);
  }

  lemma SplitsHere(name: bytes, x: bytes, t: TableName, y: bytes)
    requires GoodTable(t) && name == x + [EQUALS] + Quoted(t) + [SEMICOLON] + y
    ensures LooksLikeEntries(name)
  {
    assert SplitsAs(name, x, t, y);
  }

  lemma SameFirstEntry(a: Part, b: Part, restA: bytes, restB: bytes)
    requires GoodTable(a.table) && GoodTable(b.table) && Ends(restA) && Ends(restB)
    requires PartText(a) + restA == PartText(b) + restB && |a.name| == |b.name|
    ensures a == b && restA == restB
  {
    hide Quoted, GoodTable, Ends;
    var s, n := PartText(a) + restA, |a.name|;
    assert a.name == s[..n] && b.name == s[..n];
    assert s[n + 1..] == Quoted(a.table) + restA && s[n + 1..] == Quoted(b.table) + restB;
    QuotedPrefix(a.table, b.table, restA, restB);
  }

  /** Keys determine their parts as long as no label looks like entries. */
  lemma {:induction false} KeyDeterminesParts(a: seq<Part>, b: seq<Part>)
    requires GoodParts(a) && GoodParts(b) && InstanceKey(a) == InstanceKey(b)
    requires (forall p | p in a :: !LooksLikeEntries(p.name)) && (forall p | p in b :: !LooksLikeEntries(p.name))
    ensures a == b
    decreases |a|
  {
    hide PartText, LooksLikeEntries;
    PartIsNotEmpty(a);
    PartIsNotEmpty(b);
    if a != [] && b != [] {
      assert a[0] in a && b[0] in b;
      FollowingEnds(a[1..]);
      FollowingEnds(b[1..]);
      if |a[0].name| < |b[0].name| {
        ShorterLabel(a[0], b[0], Following(a[1..]), Following(b[1..]));
      } else if |b[0].name| < |a[0].name| {
        ShorterLabel(b[0], a[0], Following(b[1..]), Following(a[1..]));
      }
      SameFirstEntry(a[0], b[0], Following(a[1..]), Following(b[1..]));
      SameRest(a[1..], b[1..]);
      assert (forall p | p in a[1..] :: p in a) && (forall p | p in b[1..] :: p in b);
      KeyDeterminesParts(a[1..], b[1..]);
      assert a == [a[0]] + a[1..] && b == [b[0]] + b[1..];
    }
  }

  lemma PartIsNotEmpty(parts: seq<Part>)
    ensures InstanceKey(parts) == [] <==> parts == []
  {
  }

  lemma SameRest(a: seq<Part>, b: seq<Part>)
    requires Following(a) == Following(b)
    ensures InstanceKey(a) == InstanceKey(b)
  {
    if a != [] && b != [] {
      assert Following(a)[1..] == InstanceKey(a) && Following(b)[1..] == InstanceKey(b);
    } else {
      assert a == [] <==> Following(a) == [];
      assert b == [] <==> Following(b) == [];
    }
  }

  lemma {:induction false} KeyOfConcat(a: seq<Part>, b: seq<Part>)
    requires a != []
    ensures InstanceKey(a + b) == InstanceKey(a) + Following(b)
    decreases |a|
  {
    hide PartText;
    assert (a + b)[1..] == a[1..] + b;
    if |a| > 1 {
      KeyOfConcat(a[1..], b);
      var p, k, f := PartText(a[0]), InstanceKey(a[1..]), Following(b);
      assert InstanceKey(a + b) == p + ([SEMICOLON] + (k + f));
      assert p + ([SEMICOLON] + (k + f)) == (p + ([SEMICOLON] + k)) + f;
    } else {
      assert a[1..] == [] && a[1..] + b == b;
      assert PartText(a[0]) + [] == PartText(a[0]);
    }
  }

  /** A quoted name, spelled out. */
  lemma QuotedIs(table: bytes, schema: bytes)
    ensures Quoted(TableName(None, table)) == Ascii("\"") + table + Ascii("\"")
    ensures Quoted(TableName(Some(schema), table)) == Ascii("\"") + schema + Ascii("\".\"") + table + Ascii("\"")
  {
    assert Ascii("\".\"") == [QUOTE] + [DOT] + [QUOTE];
    assert Ascii("\"") == [QUOTE];
  }

  lemma PartTextIs(p: Part)
    ensures PartText(p) == p.name + Ascii("=") + Quoted(p.table)
    ensures Ascii(";") == [SEMICOLON]
  {
    hide Quoted;
    assert Ascii("=") == [EQUALS];
  }

  /** Each further entry stands behind a semicolon: its label, an equals sign, its quoted table. */
  lemma InstanceKeyAppends(parts: seq<Part>, p: Part)
    ensures InstanceKey(parts + [p]) ==
            (if parts == [] then [] else InstanceKey(parts) + Ascii(";")) + (p.name + Ascii("=") + Quoted(p.table))
  {
    PartTextIs(p);
    OneKey(p);
    hide PartText, Quoted, InstanceKey, Ascii;
    if parts == [] {
      assert parts + [p] == [p];
    } else {
      KeyOfConcat(parts, [p]);
      assert InstanceKey(parts) + ([SEMICOLON] + PartText(p)) == InstanceKey(parts) + [SEMICOLON] + PartText(p);
    }
  }

  lemma OneKey(p: Part)
    ensures InstanceKey([p]) == PartText(p) && Following([p]) == [SEMICOLON] + PartText(p)
  {
    hide PartText;
    KeyOfCons(p, []);
    assert [p] + [] == [p] && PartText(p) + [] == PartText(p);
  }

  lemma KeyOfCons(p: Part, rest: seq<Part>)
    ensures InstanceKey([p] + rest) == PartText(p) + Following(rest)
  {
    assert ([p] + rest)[1..] == rest;
  }

  /** One entry in place of two leaves the key alone. */
  lemma SameKeyAtFront(p: Part, a: Part, b: Part, after: seq<Part>)
    requires PartText(p) == PartText(a) + [SEMICOLON] + PartText(b)
    ensures InstanceKey([p] + after) == InstanceKey([a] + ([b] + after))
  {
    KeyOfCons(p, after);
    KeyOfCons(a, [b] + after);
    KeyOfCons(b, after);
    hide InstanceKey, PartText;
    var x, y, f := PartText(a), PartText(b), Following(after);
    assert Following([b] + after) == [SEMICOLON] + (y + f);
    assert x + ([SEMICOLON] + (y + f)) == x + [SEMICOLON] + y + f;
  }

  lemma SameKeyBehind(before: seq<Part>, one: seq<Part>, two: seq<Part>)
    requires InstanceKey(one) == InstanceKey(two) && one != [] && two != []
    ensures InstanceKey(before + one) == InstanceKey(before + two)
  {
    if before == [] {
      assert before + one == one && before + two == two;
    } else {
      KeyOfConcat(before, one);
      KeyOfConcat(before, two);
    }
  }

  /** And only then: a list with such a label shares its key with another list. */
  lemma EntryLabelCollides(before: seq<Part>, p: Part, after: seq<Part>) returns (other: seq<Part>)
    requires GoodTable(p.table) && LooksLikeEntries(p.name) && GoodParts(before) && GoodParts(after)
    ensures GoodParts(other) && other != before + ([p] + after)
    ensures InstanceKey(other) == InstanceKey(before + ([p] + after))
  {
    var x, t, y :| SplitsAs(p.name, x, t, y);
    var a, b := Part(x, t), Part(y, p.table);
    other := before + ([a] + ([b] + after));
    TwoForOne(p, a, b);
    SameKeyAtFront(p, a, b, after);
    hide PartText, Quoted, InstanceKey;
    SameKeyBehind(before, [p] + after, [a] + ([b] + after));
    assert |other| == |before + ([p] + after)| + 1;
  }

  lemma TwoForOne(p: Part, a: Part, b: Part)
    requires SplitsAs(p.name, a.name, a.table, b.name) && b.table == p.table
    ensures PartText(p) == PartText(a) + [SEMICOLON] + PartText(b)
  {
    hide Quoted;
  }

  lemma EntriesHaveEquals(name: bytes)
    requires LooksLikeEntries(name)
    ensures EQUALS in name
  {
    var x, t, y :| SplitsAs(name, x, t, y);
    assert name[|x|] == EQUALS;
  }

  /** Identifiers never look like entries, so table instance keys are injective. */
  lemma TableInstanceKeysInjective(a: seq<Part>, b: seq<Part>)
    requires GoodParts(a) && GoodParts(b) && InstanceKey(a) == InstanceKey(b)
    requires (forall p | p in a :: GoodIdentifier(p.name)) && (forall p | p in b :: GoodIdentifier(p.name))
    ensures a == b
  {
    forall p | p in a || p in b
      ensures !LooksLikeEntries(p.name)
    {
      hide LooksLikeEntries, GoodIdentifier;
      if LooksLikeEntries(p.name) {
        EntriesHaveEquals(p.name);
        IdentifierBytes(p.name);
      }
    }
    KeyDeterminesParts(a, b);
  }
}
