/** Words and text: splitting at white space, joining with single spaces, and UTF-8 lengths. */
module MnemonicText {
  import opened Basics
  import opened Bits

  function Utf8Len(text: string): nat {
    if text == "" then 0
    else
      var v := text[0] as int;
      (if v < 0x80 then 1 else if v < 0x800 then 2 else if v < 0x1_0000 then 3 else 4) + Utf8Len(text[1..])
  }

  predicate GoodWord(w: string) {
    w != "" && forall c | c in w :: !IsWhitespace(c)
  }

  predicate GoodWords(words: seq<string>) {
    forall w | w in words :: GoodWord(w)
  }

  /** The maximal runs of other characters, with `run` already begun. */
  function SplitFrom(run: string, text: string): seq<string>
    decreases |text|
  {
    if text == "" then (if run == "" then [] else [run])
    else if IsWhitespace(text[0]) then (if run == "" then [] else [run]) + SplitFrom("", text[1..])
    else SplitFrom(run + [text[0]], text[1..])
  }

  function SplitWhitespace(text: string): seq<string> {
    SplitFrom("", text)
  }

  function JoinWords(words: seq<string>): string {
    if words == [] then ""
    else PushWord(JoinWords(words[..|words| - 1]), words[|words| - 1])
  }

  function PushWord(encoded: string, word: string): string {
    if encoded == "" then word else encoded + " " + word
  }

  lemma JoinPush(words: seq<string>, word: string)
    ensures JoinWords(words + [word]) == PushWord(JoinWords(words), word)
  {
    assert (words + [word])[..|words|] == words;
  }

  /** One space stands between words, and nothing else is added. */
  lemma {:induction false} JoinedBySpaces(a: seq<string>, b: seq<string>)
    requires GoodWords(a) && GoodWords(b) && a != [] && b != []
    ensures JoinWords(a + b) == JoinWords(a) + " " + JoinWords(b)
    ensures |b| == 1 ==> JoinWords(b) == b[0]
    decreases |b|
  {
    var n := |b| - 1;
    assert (a + b)[..|a + b| - 1] == a + b[..n];
    JoinIsEmpty(a);
    if n == 0 {
      assert a + b[..0] == a && JoinWords(b[..0]) == "";
    } else {
      JoinedBySpaces(a, b[..n]);
      JoinIsEmpty(b[..n]);
      JoinIsEmpty(a + b[..n]);
    }
  }

  lemma {:induction false} SplitWord(run: string, word: string, rest: string)
    requires forall c | c in word :: !IsWhitespace(c)
    ensures SplitFrom(run, word + rest) == SplitFrom(run + word, rest)
    decreases |word|
  {
    if word == "" {
      assert word + rest == rest && run + word == run;
    } else {
      assert (word + rest)[1..] == word[1..] + rest && (word + rest)[0] == word[0];
      assert word[0] in word;
      SplitWord(run + [word[0]], word[1..], rest);
      assert run + [word[0]] + word[1..] == run + word;
    }
  }

  lemma JoinIsEmpty(words: seq<string>)
    requires GoodWords(words)
    ensures JoinWords(words) == "" <==> words == []
  {
    if words != [] {
      assert words[|words| - 1] in words;
    }
  }

  /** Splitting the joined words, and then more text after a space. */
  lemma {:induction false} SplitJoined(words: seq<string>, more: string)
    requires GoodWords(words) && words != []
    ensures SplitWhitespace(JoinWords(words) + " " + more) == words + SplitWhitespace(more)
    ensures SplitWhitespace(JoinWords(words)) == words
    decreases |words|
  {
    var n := |words| - 1;
    var init, last := words[..n], words[n];
    assert words == init + [last] && last in words;
    assert GoodWord(last);
    EndOfWord(last, more);
    if init == [] {
      assert JoinWords(words) == last;
      assert words == [last];
    } else {
      JoinIsEmpty(init);
      SplitJoined(init, last);
      SplitJoined(init, last + " " + more);
      assert JoinWords(words) + " " + more == JoinWords(init) + " " + (last + " " + more);
      assert JoinWords(words) == JoinWords(init) + " " + last;
      assert init + ([last] + SplitWhitespace(more)) == words + SplitWhitespace(more);
    }
  }

  lemma EndOfWord(word: string, more: string)
    requires GoodWord(word)
    ensures SplitWhitespace(word + " " + more) == [word] + SplitWhitespace(more)
    ensures SplitWhitespace(word) == [word]
  {
    SplitWord("", word, " " + more);
    SplitWord("", word, "");
    assert "" + word == word && word + "" == word;
    assert word + (" " + more) == word + " " + more;
    assert (" " + more)[1..] == more && (" " + more)[0] == ' ';
  }

  lemma {:induction false} Utf8LenConcat(a: string, b: string)
    ensures Utf8Len(a + b) == Utf8Len(a) + Utf8Len(b)
  {
    if a == "" {
      assert a + b == b;
    } else {
      assert (a + b)[1..] == a[1..] + b;
      Utf8LenConcat(a[1..], b);
    }
  }

  /** Every character takes one to four bytes, and an ASCII character one. */
  lemma {:induction false} Utf8LenBounds(text: string)
    ensures |text| <= Utf8Len(text) <= 4 * |text|
    ensures Utf8Len(text) == |text| <==> forall i | 0 <= i < |text| :: text[i] < 128 as char
  {
    if text != "" {
      Utf8LenBounds(text[1..]);
      assert forall i | 0 < i < |text| :: text[i] == text[1..][i - 1];
      assert forall i | 0 <= i < |text| - 1 :: text[1..][i] == text[i + 1];
    }
  }

  lemma PushedLength(encoded: string, word: string)
    ensures Utf8Len(PushWord(encoded, word)) <= Utf8Len(encoded) + 1 + Utf8Len(word)
  {
    Utf8LenConcat(encoded, " ");
    Utf8LenConcat(encoded + " ", word);
  }

  lemma {:induction false} JoinedLength(words: seq<string>, max: nat)
    requires forall w | w in words :: Utf8Len(w) <= max
    ensures Utf8Len(JoinWords(words)) <= |words| * (max + 1)
    decreases |words|
  {
    hide Utf8Len, PushWord;
    if words == [] {
      assert Utf8Len(JoinWords(words)) == 0 by {
        EmptyLength();
      }
    } else {
      var n := |words| - 1;
      assert words[n] in words;
      assert forall w | w in words[..n] :: w in words;
      JoinedLength(words[..n], max);
      PushedLength(JoinWords(words[..n]), words[n]);
      Distribute(n, max + 1);
    }
  }

  lemma EmptyLength()
    ensures Utf8Len("") == 0
  {
  }
}
