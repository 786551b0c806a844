/**
 Tokens for keyword search: ASCII words with their parts, and the bigrams and
 trigrams of Chinese phrases (backend/retriever.py `bm25_tokenize`).
 */
module Tokenizer {
  import opened Text

  /** `str.lower`, one character at a time: a character may lower to several. */
  type Lowering = char -> string

  function Lower(text: string, low: Lowering): string {
    if text == "" then "" else low(text[0]) + Lower(text[1..], low)
  }

  predicate Alnum(c: char) { 'a' <= c <= 'z' || '0' <= c <= '9' }
  predicate Joiner(c: char) { c == '-' || c == '_' || c == '.' || c == '/' }
  predicate Cjk(c: char) { '\U{4E00}' <= c <= '\U{9FFF}' }

  // ------------------------------------------------------------------ ASCII words

  /** The length of the match of `[a-z0-9]+(?:[-_./][a-z0-9]+)*%?` at the start of `s`. */
  function WordLength(s: string): (n: nat)
    requires s != "" && Alnum(s[0])
    ensures 1 <= n <= |s|
    decreases |s|
  {
    var n := RunLength(s, Alnum);
    if n + 1 < |s| && Joiner(s[n]) && Alnum(s[n + 1]) then n + 1 + WordLength(s[n + 1..])
    else if n < |s| && s[n] == '%' then n + 1
    else n
  }

  function Words(s: string): seq<string>
    decreases |s|
  {
    if s == "" then []
    else if Alnum(s[0]) then [s[..WordLength(s)]] + Words(s[WordLength(s)..])
    else Words(s[1..])
  }

  predicate NotJoiner(c: char) { !Joiner(c) }

  /** `re.split(r"[-_./]", token)`. */
  function Parts(token: string): seq<string>
    decreases |token|
  {
    var n := RunLength(token, NotJoiner);
    if n == |token| then [token] else [token[..n]] + Parts(token[n + 1..])
  }

  /** The parts that are appended after a token: neither empty nor the token itself. */
  function ProperParts(parts: seq<string>, token: string): seq<string> {
    if parts == [] then []
    else (if parts[0] != "" && parts[0] != token then [parts[0]] else []) + ProperParts(parts[1..], token)
  }

  function WordTokens(words: seq<string>): seq<string> {
    if words == [] then []
    else [words[0]] + ProperParts(Parts(words[0]), words[0]) + WordTokens(words[1..])
  }

  // -------------------------------------------------------------- Chinese phrases

  /** The maximal runs of Chinese characters. */
  function Phrases(s: string): seq<string>
    decreases |s|
  {
    if s == "" then []
    else if Cjk(s[0]) then
      assert RunLength(s, Cjk) > 0;
      [s[..RunLength(s, Cjk)]] + Phrases(s[RunLength(s, Cjk)..])
    else Phrases(s[1..])
  }

  function Grams(phrase: string, size: nat): (r: seq<string>)
    requires 1 <= size <= |phrase|
    ensures |r| == |phrase| - size + 1
    ensures forall i :: 0 <= i < |r| ==> r[i] == phrase[i..i + size]
  {
    seq(|phrase| - size + 1, i requires 0 <= i <= |phrase| - size => phrase[i..i + size])
  }

  function PhraseTokens(phrase: string): seq<string> {
    if |phrase| <= 2 then [phrase] else Grams(phrase, 2) + Grams(phrase, 3)
  }

  function AllPhraseTokens(phrases: seq<string>): seq<string> {
    if phrases == [] then [] else PhraseTokens(phrases[0]) + AllPhraseTokens(phrases[1..])
  }

  function Tokens(text: string, low: Lowering): seq<string> {
    WordTokens(Words(Lower(text, low))) + AllPhraseTokens(Phrases(Lower(text, low)))
  }

  /** `bm25_tokenize`: two loops that append to one list. */
  method Tokenize(text: string, low: Lowering) returns (tokens: seq<string>)
    ensures tokens == Tokens(text, low)
  {
    var lowered := Lower(text, low);
    tokens := AppendWords(Words(lowered));
    tokens := AppendPhrases(tokens, Phrases(lowered));
  }

  method AppendWords(words: seq<string>) returns (tokens: seq<string>)
    ensures tokens == WordTokens(words)
  {
    tokens := [];
    for i := 0 to |words|
      invariant WordTokens(words) == tokens + WordTokens(words[i..])
    {
      assert words[i..][1..] == words[i + 1..];
      var gathered := TokenizeWord(words[i]);
      tokens := tokens + gathered;
    }
  }

  method AppendPhrases(before: seq<string>, phrases: seq<string>) returns (tokens: seq<string>)
    ensures tokens == before + AllPhraseTokens(phrases)
  {
    tokens := before;
    for i := 0 to |phrases|
      invariant before + AllPhraseTokens(phrases) == tokens + AllPhraseTokens(phrases[i..])
    {
      assert phrases[i..][1..] == phrases[i + 1..];
      var gathered := TokenizePhrase(phrases[i]);
      tokens := tokens + gathered;
    }
  }

  /** The body of the word loop: the token, then its proper parts. */
  method TokenizeWord(token: string) returns (tokens: seq<string>)
    ensures tokens == [token] + ProperParts(Parts(token), token)
  {
    tokens := [token];
    var parts := Parts(token);
    for j := 0 to |parts|
      invariant [token] + ProperParts(parts, token) == tokens + ProperParts(parts[j..], token)
    {
      assert parts[j..][1..] == parts[j + 1..];
      if parts[j] != "" && parts[j] != token {
        tokens := tokens + [parts[j]];
      }
    }
  }

  /** The body of the phrase loop: sizes 2 and 3, every start index. */
  method TokenizePhrase(phrase: string) returns (tokens: seq<string>)
    ensures tokens == PhraseTokens(phrase)
  {
    if |phrase| <= 2 {
      return [phrase];
    }
    tokens := [];
    for size := 2 to 4
      invariant tokens == if size == 2 then [] else if size == 3 then Grams(phrase, 2) else PhraseTokens(phrase)
    {
      ghost var start := tokens;
      for index := 0 to |phrase| - size + 1
        invariant tokens == start + Grams(phrase, size)[..index]
      {
        GramsSnoc(start, phrase, size, index);
        tokens := tokens + [phrase[index..index + size]];
      }
      AllGrams(start, phrase, size);
    }
  }

  lemma GramsSnoc(start: seq<string>, phrase: string, size: nat, index: nat)
    requires 1 <= size <= |phrase| && index <= |phrase| - size
    ensures start + Grams(phrase, size)[..index] + [phrase[index..index + size]]
            == start + Grams(phrase, size)[..index + 1]
  {
    var grams := Grams(phrase, size);
    assert grams[..index + 1] == grams[..index] + [grams[index]];
  }

  lemma AllGrams(start: seq<string>, phrase: string, size: nat)
    requires 1 <= size <= |phrase|
    ensures start + Grams(phrase, size)[..|phrase| - size + 1] == start + Grams(phrase, size)
    ensures [] + Grams(phrase, size) == Grams(phrase, size)
  {
  }

  // --------------------------------------------------- recall: substrings share tokens

  predicate AllCjk(s: string) {
    forall i :: 0 <= i < |s| ==> Cjk(s[i])
  }

  /** Lowering leaves Chinese characters alone. */
  ghost predicate KeepsCjk(low: Lowering) {
    forall c: char :: Cjk(c) ==> low(c) == [c]
  }

  lemma {:induction false} LowerAppend(a: string, b: string, low: Lowering)
    ensures Lower(a + b, low) == Lower(a, low) + Lower(b, low)
  {
    if a == "" {
      assert a + b == b;
    } else {
      LowerAppend(a[1..], b, low);
      var t := a + b;
      assert t[0] == a[0];
      assert t[1..] == a[1..] + b;
      assert Lower(t, low) == low(t[0]) + Lower(t[1..], low);
    }
  }

  lemma {:induction false} LowerCjk(s: string, low: Lowering)
    requires AllCjk(s) && KeepsCjk(low)
    ensures Lower(s, low) == s
  {
    if s != "" {
      LowerCjk(s[1..], low);
      assert s == [s[0]] + s[1..];
    }
  }

  /** Two or three adjacent Chinese characters are a token of the phrase they are in. */
  lemma {:induction false} AdjacentCjkIsToken(s: string, k: nat, size: nat)
    requires 2 <= size <= 3 && k + size <= |s| && AllCjk(s[k..k + size])
    ensures s[k..k + size] in AllPhraseTokens(Phrases(s))
    decreases |s|
  {
    hide Phrases, PhraseTokens, AllPhraseTokens, AllCjk;
    CjkSlice(s, k, size);
    PhrasesOfRest(s);
    if Cjk(s[0]) {
      var n := RunLength(s, Cjk);
      if k + size <= n {
        SliceOfPrefix(s, n, k, k + size);
        GramIsPhraseToken(s[..n], k, size);
      } else {
        assert k >= n;
        SliceOfTail(s, n, k, k + size);
        AdjacentCjkIsToken(s[n..], k - n, size);
      }
    } else {
      assert k > 0;
      SliceOfTail(s, 1, k, k + size);
      AdjacentCjkIsToken(s[1..], k - 1, size);
    }
  }

  /** The tokens of the first phrase, if one starts here, and those of the rest. */
  lemma PhrasesOfRest(s: string)
    requires s != ""
    ensures var n := RunLength(s, Cjk);
            AllPhraseTokens(Phrases(s)) ==
            if Cjk(s[0]) then PhraseTokens(s[..n]) + AllPhraseTokens(Phrases(s[n..]))
            else AllPhraseTokens(Phrases(s[1..]))
  {
    hide PhraseTokens;
    if Cjk(s[0]) {
      var n := RunLength(s, Cjk);
      var rest := Phrases(s[n..]);
      assert Phrases(s) == [s[..n]] + rest;
      assert ([s[..n]] + rest)[1..] == rest;
    }
  }

  lemma CjkSlice(s: string, k: nat, size: nat)
    requires k + size <= |s| && AllCjk(s[k..k + size])
    ensures forall i :: k <= i < k + size ==> Cjk(s[i])
  {
    forall i | k <= i < k + size
      ensures Cjk(s[i])
    {
      assert s[i] == s[k..k + size][i - k];
    }
  }

  lemma GramIsPhraseToken(phrase: string, k: nat, size: nat)
    requires 2 <= size <= 3 && k + size <= |phrase|
    ensures phrase[k..k + size] in PhraseTokens(phrase)
  {
    if |phrase| > 2 {
      assert Grams(phrase, size)[k] == phrase[k..k + size];
    } else {
      assert phrase[k..k + size] == phrase;
    }
  }

  lemma SliceOfPrefix(s: string, n: nat, a: nat, b: nat)
    requires a <= b <= n <= |s|
    ensures s[..n][a..b] == s[a..b]
  {
  }

  lemma SliceOfTail(s: string, k: nat, a: nat, b: nat)
    requires k <= a <= b <= |s|
    ensures s[k..][a - k..b - k] == s[a..b]
  {
  }

  predicate OccursAt(gram: string, s: string, k: nat) {
    k + |gram| <= |s| && s[k..k + |gram|] == gram
  }

  ghost predicate Occurs(gram: string, s: string) {
    exists k: nat :: OccursAt(gram, s, k)
  }

  /**
   Chinese substring recall: an all-Chinese query of at least two characters
   that occurs in a text shares a token with it.
   */
  lemma ChineseQuerySharesToken(query: string, text: string, low: Lowering) returns (token: string)
    requires KeepsCjk(low) && AllCjk(query) && |query| >= 2 && Occurs(query, text)
    ensures token in Tokens(query, low) && token in Tokens(text, low)
  {
    token := query[..2];
    LowerCjk(query, low);
    var at := LoweredOccurrence(query, text, low);
    OpeningPairIsToken(query, Lower(query, low), 0);
    OpeningPairIsToken(query, Lower(text, low), at);
  }

  lemma OpeningPairIsToken(query: string, lowered: string, at: nat)
    requires AllCjk(query) && |query| >= 2 && OccursAt(query, lowered, at)
    ensures query[..2] in AllPhraseTokens(Phrases(lowered))
  {
    assert lowered[at..at + |query|][..2] == lowered[at..at + 2];
    AdjacentCjkIsToken(lowered, at, 2);
  }

  lemma LoweredOccurrence(query: string, text: string, low: Lowering) returns (at: nat)
    requires KeepsCjk(low) && AllCjk(query) && Occurs(query, text)
    ensures OccursAt(query, Lower(text, low), at)
  {
    var k: nat :| OccursAt(query, text, k);
    var before, after := text[..k], text[k + |query|..];
    at := |Lower(before, low)|;
    assert Lower(query + after, low) == query + Lower(after, low) by {
      LowerCjk(query, low);
      LowerAppend(query, after, low);
    }
    assert text == before + (query + after);
    LowerAppend(before, query + after, low);
    OccursBetween(Lower(before, low), query, Lower(after, low));
  }

  lemma OccursBetween(before: string, gram: string, after: string)
    ensures OccursAt(gram, before + (gram + after), |before|)
  {
  }

  // ------------------------------------------------ soundness: tokens occur in the text

  lemma SliceOfSlice(s: string, a: nat, b: nat, i: nat, j: nat)
    requires a <= b <= |s| && i <= j <= b - a
    ensures s[a..b][i..j] == s[a + i..a + j]
  {
    var x, y := s[a..b][i..j], s[a + i..a + j];
    assert |x| == |y|;
    forall t | 0 <= t < |x|
      ensures x[t] == y[t]
    {
      assert x[t] == s[a..b][i + t] == s[a + (i + t)] == y[t];
    }
    assert x == y;
  }

  lemma OccursInside(gram: string, s: string, a: nat, b: nat)
    requires a <= b <= |s| && Occurs(gram, s[a..b])
    ensures Occurs(gram, s)
  {
    var k: nat :| OccursAt(gram, s[a..b], k);
    SliceOfSlice(s, a, b, k, k + |gram|);
    assert OccursAt(gram, s, a + k);
  }

  lemma OccursItself(s: string)
    ensures Occurs(s, s)
  {
    assert OccursAt(s, s, 0);
  }

  lemma {:induction false} PartsOccur(token: string, part: string)
    requires part in Parts(token)
    ensures Occurs(part, token)
    decreases |token|
  {
    var n := RunLength(token, NotJoiner);
    if n == |token| {
      OccursItself(token);
    } else if part == token[..n] {
      assert OccursAt(part, token, 0);
    } else {
      PartsOccur(token[n + 1..], part);
      assert token[n + 1..] == token[n + 1..|token|];
      OccursInside(part, token, n + 1, |token|);
    }
  }

  lemma {:induction false} ProperPartsMembers(parts: seq<string>, token: string, part: string)
    requires part in ProperParts(parts, token)
    ensures part in parts
  {
    if part in ProperParts(parts[1..], token) {
      ProperPartsMembers(parts[1..], token, part);
    }
  }

  lemma {:induction false} WordsOccur(s: string, word: string)
    requires word in Words(s)
    ensures Occurs(word, s)
    decreases |s|
  {
    var n := if Alnum(s[0]) then WordLength(s) else 1;
    if Alnum(s[0]) && word == s[..n] {
      assert OccursAt(word, s, 0);
    } else {
      WordsOccur(s[n..], word);
      assert s[n..] == s[n..|s|];
      OccursInside(word, s, n, |s|);
    }
  }

  lemma {:induction false} WordTokensOrigin(words: seq<string>, token: string) returns (word: string)
    requires token in WordTokens(words)
    ensures word in words && (token == word || token in Parts(word))
  {
    word := words[0];
    if token != word && token in ProperParts(Parts(word), word) {
      ProperPartsMembers(Parts(word), word, token);
    } else if token != word {
      word := WordTokensOrigin(words[1..], token);
    }
  }

  lemma {:induction false} PhrasesOccur(s: string, phrase: string)
    requires phrase in Phrases(s)
    ensures Occurs(phrase, s)
    decreases |s|
  {
    var n := if Cjk(s[0]) then RunLength(s, Cjk) else 1;
    if Cjk(s[0]) && phrase == s[..n] {
      assert OccursAt(phrase, s, 0);
    } else {
      assert n > 0;
      PhrasesOccur(s[n..], phrase);
      assert s[n..] == s[n..|s|];
      OccursInside(phrase, s, n, |s|);
    }
  }

  lemma {:induction false} PhraseTokensOrigin(phrases: seq<string>, token: string) returns (phrase: string)
    requires token in AllPhraseTokens(phrases)
    ensures phrase in phrases && Occurs(token, phrase)
  {
    phrase := phrases[0];
    if token in PhraseTokens(phrase) {
      if |phrase| <= 2 {
        OccursItself(phrase);
      } else if token in Grams(phrase, 2) {
        var i :| 0 <= i < |Grams(phrase, 2)| && Grams(phrase, 2)[i] == token;
        assert OccursAt(token, phrase, i);
      } else {
        var i :| 0 <= i < |Grams(phrase, 3)| && Grams(phrase, 3)[i] == token;
        assert OccursAt(token, phrase, i);
      }
    } else {
      phrase := PhraseTokensOrigin(phrases[1..], token);
    }
  }

  lemma OccursTransitive(a: string, b: string, c: string)
    requires Occurs(a, b) && Occurs(b, c)
    ensures Occurs(a, c)
  {
    var k: nat :| OccursAt(b, c, k);
    OccursInside(a, c, k, k + |b|);
  }

  /** Every token occurs in the lowered text. */
  lemma TokensOccur(text: string, low: Lowering, token: string)
    requires token in Tokens(text, low)
    ensures Occurs(token, Lower(text, low))
  {
    var s := Lower(text, low);
    if token in WordTokens(Words(s)) {
      var word := WordTokensOrigin(Words(s), token);
      WordsOccur(s, word);
      if token != word {
        PartsOccur(word, token);
        OccursTransitive(token, word, s);
      }
    } else {
      var phrase := PhraseTokensOrigin(Phrases(s), token);
      PhrasesOccur(s, phrase);
      OccursTransitive(token, phrase, s);
    }
  }

  /** For two or three Chinese characters, being a token and occurring in the text are the same. */
  lemma ChineseGramIsTokenExactly(gram: string, text: string, low: Lowering)
    requires 2 <= |gram| <= 3 && AllCjk(gram)
    ensures gram in Tokens(text, low) <==> Occurs(gram, Lower(text, low))
  {
    var s := Lower(text, low);
    if gram in Tokens(text, low) {
      TokensOccur(text, low, gram);
    }
    if Occurs(gram, s) {
      var k: nat :| OccursAt(gram, s, k);
      AdjacentCjkIsToken(s, k, |gram|);
    }
  }

  // ------------------------------------------------ recall: alphanumeric runs are tokens

  /** A maximal run of ASCII letters and digits. */
  predicate RunAt(s: string, a: nat, b: nat) {
    && a < b <= |s|
    && (forall i :: a <= i < b ==> Alnum(s[i]))
    && (a == 0 || !Alnum(s[a - 1]))
    && (b == |s| || !Alnum(s[b]))
  }

  /** The run, with the percent sign that follows it if there is one. */
  function RunToken(s: string, a: nat, b: nat): string
    requires a < b <= |s|
  {
    if b < |s| && s[b] == '%' then s[a..b + 1] else s[a..b]
  }

  lemma RunAtTail(s: string, k: nat, a: nat, b: nat)
    requires k <= a && RunAt(s, a, b)
    ensures RunAt(s[k..], a - k, b - k) && RunToken(s[k..], a - k, b - k) == RunToken(s, a, b)
  {
    hide RunToken;
    TokenOfTail(s, k, a, b);
  }

  lemma TokenOfTail(s: string, k: nat, a: nat, b: nat)
    requires k <= a < b <= |s|
    ensures RunToken(s[k..], a - k, b - k) == RunToken(s, a, b)
  {
    var c := if b < |s| && s[b] == '%' then b + 1 else b;
    SliceOfTail(s, k, a, c);
  }

  lemma PartsOfJoined(first: string, c: char, rest: string)
    requires Joiner(c) && forall i :: 0 <= i < |first| ==> !Joiner(first[i])
    ensures Parts(first + [c] + rest) == [first] + Parts(rest)
  {
    var w := first + [c] + rest;
    assert w[|first|] == c && forall i :: 0 <= i < |first| ==> w[i] == first[i];
    assert RunLength(w, NotJoiner) == |first|;
    assert w[..|first|] == first && w[|first| + 1..] == rest;
  }

  lemma PartsOfPlain(w: string)
    requires forall i :: 0 <= i < |w| ==> !Joiner(w[i])
    ensures Parts(w) == [w]
  {
    assert RunLength(w, NotJoiner) == |w|;
  }

  /** A run is the first one, or starts after it. */
  lemma FirstRun(s: string, a: nat, b: nat)
    requires s != "" && Alnum(s[0]) && RunAt(s, a, b)
    ensures var r := RunLength(s, Alnum); r > 0 && if a == 0 then b == r else b > a > r
  {
  }

  /** The word that starts here goes on after the first run, or ends with it and perhaps a percent sign. */
  predicate GoesOn(s: string, r: nat) {
    r + 1 < |s| && Joiner(s[r]) && Alnum(s[r + 1])
  }

  lemma LongWordLength(s: string, r: nat)
    requires s != "" && Alnum(s[0]) && r == RunLength(s, Alnum) && GoesOn(s, r)
    ensures r > 0 && WordLength(s) == r + 1 + WordLength(s[r + 1..])
  {
    assert r > 0 && s[r + 1..] != "" && s[r + 1..][0] == s[r + 1];
  }

  lemma LongWordParts(s: string, r: nat, m: nat)
    requires r + 1 + m <= |s| && Joiner(s[r]) && forall i :: 0 <= i < r ==> Alnum(s[i])
    ensures Parts(s[..r + 1 + m]) == [s[..r]] + Parts(s[r + 1..][..m])
  {
    hide Parts;
    PrefixAround(s, r, m);
    PartsOfJoined(s[..r], s[r], s[r + 1..][..m]);
  }

  lemma LongWord(s: string, r: nat)
    requires s != "" && Alnum(s[0]) && r == RunLength(s, Alnum) && GoesOn(s, r)
    ensures WordLength(s) == r + 1 + WordLength(s[r + 1..])
    ensures Parts(s[..WordLength(s)]) == [s[..r]] + Parts(s[r + 1..][..WordLength(s[r + 1..])])
    ensures r > 0 && RunToken(s, 0, r) == s[..r]
  {
    hide WordLength, Parts;
    LongWordLength(s, r);
    LongWordParts(s, r, WordLength(s[r + 1..]));
  }

  lemma PrefixAround(s: string, r: nat, m: nat)
    requires r + 1 + m <= |s|
    ensures s[..r + 1 + m] == s[..r] + [s[r]] + s[r + 1..][..m]
  {
  }

  lemma ShortWord(s: string, r: nat)
    requires s != "" && Alnum(s[0]) && r == RunLength(s, Alnum) && !GoesOn(s, r)
    ensures WordLength(s) <= r + 1
    ensures r > 0 && RunToken(s, 0, r) in Parts(s[..WordLength(s)])
  {
    ShortWordIsPlain(s, r);
    PartsOfPlain(s[..WordLength(s)]);
  }

  lemma ShortWordIsPlain(s: string, r: nat)
    requires s != "" && Alnum(s[0]) && r == RunLength(s, Alnum) && !GoesOn(s, r)
    ensures 0 < r <= WordLength(s) <= r + 1
    ensures s[..WordLength(s)] == RunToken(s, 0, r)
    ensures forall i :: 0 <= i < WordLength(s) ==> !Joiner(s[i])
  {
  }

  /** A run that starts inside a word is one of its parts. */
  lemma {:induction false} RunIsPart(s: string, a: nat, b: nat)
    requires s != "" && Alnum(s[0]) && RunAt(s, a, b) && a < WordLength(s)
    ensures RunToken(s, a, b) in Parts(s[..WordLength(s)])
    decreases |s|
  {
    hide RunAt, RunToken, Parts;
    var r := RunLength(s, Alnum);
    FirstRun(s, a, b);
    if GoesOn(s, r) {
      LongWord(s, r);
      if a > 0 {
        RunAtTail(s, r + 1, a, b);
        RunIsPart(s[r + 1..], a - (r + 1), b - (r + 1));
      }
    } else {
      ShortWord(s, r);
    }
  }

  lemma {:induction false} RunInWords(s: string, a: nat, b: nat) returns (word: string)
    requires RunAt(s, a, b)
    ensures word in Words(s) && RunToken(s, a, b) in Parts(word)
    decreases |s|
  {
    hide Parts, RunToken;
    if Alnum(s[0]) && a < WordLength(s) {
      RunIsPart(s, a, b);
      word := s[..WordLength(s)];
    } else {
      var k := if Alnum(s[0]) then WordLength(s) else 1;
      RunAtTail(s, k, a, b);
      word := RunInWords(s[k..], a - k, b - k);
    }
  }

  lemma {:induction false} ProperPartsHas(parts: seq<string>, token: string, part: string)
    requires part in parts && part != "" && part != token
    ensures part in ProperParts(parts, token)
  {
    if parts[0] != part {
      ProperPartsHas(parts[1..], token, part);
    }
  }

  lemma {:induction false} WordTokensHas(words: seq<string>, word: string, token: string)
    requires word in words && token in Parts(word) && token != ""
    ensures token in WordTokens(words)
  {
    if words[0] == word {
      if token != word {
        ProperPartsHas(Parts(word), word, token);
      }
    } else {
      WordTokensHas(words[1..], word, token);
    }
  }

  /**
   Recall for technical terms: every maximal run of letters and digits of the
   lowered text is a token, wherever in a hyphenated or dotted word it stands,
   together with its percent sign if it has one.
   */
  lemma AsciiRunIsToken(text: string, low: Lowering, a: nat, b: nat)
    requires RunAt(Lower(text, low), a, b)
    ensures RunToken(Lower(text, low), a, b) in Tokens(text, low)
  {
    var s := Lower(text, low);
    var word := RunInWords(s, a, b);
    WordTokensHas(Words(s), word, RunToken(s, a, b));
  }

  /** A character by itself between others: it is the whole phrase, and the token. */
  predicate IsolatedAt(s: string, k: nat) {
    && k < |s| && Cjk(s[k]) && (k == 0 || !Cjk(s[k - 1])) && (k + 1 == |s| || !Cjk(s[k + 1]))
  }

  lemma {:induction false} IsolatedIsPhraseToken(s: string, k: nat)
    requires IsolatedAt(s, k)
    ensures [s[k]] in AllPhraseTokens(Phrases(s))
    decreases |s|
  {
    PhrasesOfRest(s);
    hide Phrases, AllPhraseTokens;
    var n := if Cjk(s[0]) then RunLength(s, Cjk) else 1;
    if k == 0 {
      assert n == 1 && s[..1] == [s[0]];
    } else {
      assert n <= k;
      IsolatedIsPhraseToken(s[n..], k - n);
    }
  }

  /** An isolated Chinese character of the lowered text is a token, so a query of one character can be found. */
  lemma IsolatedCjkIsToken(text: string, low: Lowering, k: nat)
    requires IsolatedAt(Lower(text, low), k)
    ensures [Lower(text, low)[k]] in Tokens(text, low)
  {
    IsolatedIsPhraseToken(Lower(text, low), k);
  }

  // ------------------------------------------------ what tokens are made of

  predicate WordChar(c: char) { Alnum(c) || Joiner(c) || c == '%' }

  predicate TokenChar(c: char) { WordChar(c) || Cjk(c) }

  predicate AllOf(s: string, p: char -> bool) {
    forall i :: 0 <= i < |s| ==> p(s[i])
  }

  lemma {:induction false} WordLengthChars(s: string)
    requires s != "" && Alnum(s[0])
    ensures forall i :: 0 <= i < WordLength(s) ==> WordChar(s[i])
    decreases |s|
  {
    var r := RunLength(s, Alnum);
    if GoesOn(s, r) {
      LongWordLength(s, r);
      var rest := s[r + 1..];
      WordLengthChars(rest);
      assert forall i :: r + 1 <= i < WordLength(s) ==> s[i] == rest[i - (r + 1)];
    } else {
      ShortWordIsPlain(s, r);
      assert WordLength(s) <= r + 1;
    }
  }

  lemma {:induction false} WordsChars(s: string, word: string)
    requires word in Words(s)
    ensures AllOf(word, TokenChar)
    decreases |s|
  {
    if Alnum(s[0]) {
      WordLengthChars(s);
      if word != s[..WordLength(s)] {
        WordsChars(s[WordLength(s)..], word);
      }
    } else {
      WordsChars(s[1..], word);
    }
  }

  lemma {:induction false} PhrasesChars(s: string, phrase: string)
    requires phrase in Phrases(s)
    ensures AllOf(phrase, TokenChar)
    decreases |s|
  {
    if Cjk(s[0]) {
      var n := RunLength(s, Cjk);
      assert n > 0;
      if phrase != s[..n] {
        PhrasesChars(s[n..], phrase);
      }
    } else {
      PhrasesChars(s[1..], phrase);
    }
  }

  lemma OccurringChars(gram: string, s: string, p: char -> bool)
    requires Occurs(gram, s) && AllOf(s, p)
    ensures AllOf(gram, p)
  {
    var k: nat :| OccursAt(gram, s, k);
    assert forall i :: 0 <= i < |gram| ==> gram[i] == s[k..k + |gram|][i] == s[k + i];
  }

  /** Tokens hold nothing but lower-case letters, digits, joiners, percent signs and Chinese characters. */
  lemma TokensChars(text: string, low: Lowering, token: string)
    requires token in Tokens(text, low)
    ensures AllOf(token, TokenChar)
  {
    var s := Lower(text, low);
    if token in WordTokens(Words(s)) {
      var word := WordTokensOrigin(Words(s), token);
      WordsChars(s, word);
      if token != word {
        PartsOccur(word, token);
        OccurringChars(token, word, TokenChar);
      }
    } else {
      var phrase := PhraseTokensOrigin(Phrases(s), token);
      PhrasesChars(s, phrase);
      OccurringChars(token, phrase, TokenChar);
    }
  }

  // ------------------------------------------------ whole words, and how many tokens there are

  /** A letter or digit, or a joiner inside the stretch between two of them. */
  predicate InTerm(s: string, a: nat, b: nat, i: nat) {
    a <= i < b <= |s| ==>
      Alnum(s[i]) || (Joiner(s[i]) && a < i < b - 1 && Alnum(s[i - 1]) && Alnum(s[i + 1]))
  }

  predicate OpensAt(s: string, a: nat) {
    a <= |s| && (a == 0 || (!Alnum(s[a - 1]) && !(a >= 2 && Joiner(s[a - 1]) && Alnum(s[a - 2]))))
  }

  predicate ClosesAt(s: string, b: nat) {
    b == |s| || (b < |s| && !Alnum(s[b]) && !(b + 1 < |s| && Joiner(s[b]) && Alnum(s[b + 1])))
  }

  /** Letters and digits, with single joiners between them, that no such word extends to either side. */
  ghost predicate WordAt(s: string, a: nat, b: nat) {
    && a < b <= |s| && Alnum(s[a]) && Alnum(s[b - 1])
    && (forall i: nat :: InTerm(s, a, b, i))
    && OpensAt(s, a) && ClosesAt(s, b)
  }

  /** Inside a match every letter or digit follows another one, directly or behind a joiner. */
  predicate Linked(s: string, i: nat) {
    && 0 < i < |s|
    && (Alnum(s[i - 1]) || (i >= 2 && Joiner(s[i - 1]) && Alnum(s[i - 2])))
  }

  lemma {:induction false} MatchIsLinked(s: string, i: nat)
    requires s != "" && Alnum(s[0]) && 0 < i < WordLength(s) && Alnum(s[i])
    ensures Linked(s, i)
    decreases |s|
  {
    var r := RunLength(s, Alnum);
    if GoesOn(s, r) {
      LongWordLength(s, r);
      if i > r + 1 {
        var t := s[r + 1..];
        MatchIsLinked(t, i - (r + 1));
        assert t[i - (r + 1) - 1] == s[i - 1];
        if i - (r + 1) >= 2 {
          assert t[i - (r + 1) - 2] == s[i - 2];
        }
      }
    } else {
      ShortWordIsPlain(s, r);
      assert i < r;
    }
  }

  lemma WordAtTail(s: string, k: nat, a: nat, b: nat)
    requires k <= a && WordAt(s, a, b)
    ensures WordAt(s[k..], a - k, b - k)
  {
    var t := s[k..];
    var c: nat, d: nat := a - k, b - k;
    TailChars(s, k);
    forall i: nat
      ensures InTerm(t, c, d, i)
    {
      assert InTerm(s, a, b, i + k);
    }
  }

  lemma TailChars(s: string, k: nat)
    requires k <= |s|
    ensures forall i :: 0 <= i < |s| - k ==> s[k..][i] == s[i + k]
  {
  }

  lemma FirstRunOfWord(s: string, b: nat)
    requires WordAt(s, 0, b)
    ensures var r := RunLength(s, Alnum); 0 < r <= b && (r < b ==> GoesOn(s, r) && r + 1 < b)
  {
    var r := RunLength(s, Alnum);
    assert r <= b;
    assert InTerm(s, 0, b, r);
  }

  /** A word at the start is what the pattern matches there. */
  lemma {:induction false} WordIsMatch(s: string, b: nat)
    requires WordAt(s, 0, b)
    ensures s[..WordLength(s)] == RunToken(s, 0, b)
    decreases |s|
  {
    var r := RunLength(s, Alnum);
    FirstRunOfWord(s, b);
    if r < b {
      LongWordLength(s, r);
      WordRest(s, r, b);
      WordIsMatch(s[r + 1..], b - (r + 1));
      MatchAfter(s, r, b, WordLength(s[r + 1..]));
    } else {
      ShortWordIsPlain(s, r);
    }
  }

  lemma WordRest(s: string, r: nat, b: nat)
    requires WordAt(s, 0, b) && r + 1 < b && Joiner(s[r]) && Alnum(s[r + 1])
    ensures WordAt(s[r + 1..], 0, b - (r + 1))
  {
    var t := s[r + 1..];
    var d: nat := b - (r + 1);
    TailChars(s, r + 1);
    forall i: nat
      ensures InTerm(t, 0, d, i)
    {
      assert InTerm(s, 0, b, i + (r + 1));
    }
  }

  lemma MatchAfter(s: string, r: nat, b: nat, m: nat)
    requires r + 1 < b <= |s| && r + 1 + m <= |s|
    requires s[r + 1..][..m] == RunToken(s[r + 1..], 0, b - (r + 1))
    ensures s[..r + 1 + m] == RunToken(s, 0, b)
  {
    var c := if b < |s| && s[b] == '%' then b + 1 else b;
    assert |s[r + 1..][..m]| == m;
    assert RunToken(s[r + 1..], 0, b - (r + 1)) == s[r + 1..][..c - (r + 1)];
  }

  /** A word starts where the pattern can start: not inside an earlier match. */
  lemma WordStartsLater(s: string, a: nat, b: nat)
    requires WordAt(s, a, b) && 0 < a && Alnum(s[0])
    ensures WordLength(s) <= a
  {
    if a < WordLength(s) {
      MatchIsLinked(s, a);
      assert false;
    }
  }

  lemma {:induction false} WholeWordInWords(s: string, a: nat, b: nat)
    requires WordAt(s, a, b)
    ensures RunToken(s, a, b) in Words(s)
    decreases |s|
  {
    hide RunToken, WordAt;
    WordIsThere(s, a, b);
    if a == 0 {
      WordIsMatch(s, b);
    } else {
      if Alnum(s[0]) {
        WordStartsLater(s, a, b);
      }
      var k := if Alnum(s[0]) then WordLength(s) else 1;
      WordAtTail(s, k, a, b);
      TokenOfTail(s, k, a, b);
      WholeWordInWords(s[k..], a - k, b - k);
    }
  }

  lemma WordIsThere(s: string, a: nat, b: nat)
    requires WordAt(s, a, b)
    ensures a < b <= |s| && Alnum(s[a])
  {
  }

  lemma {:induction false} WordsAreTokens(words: seq<string>, word: string)
    requires word in words
    ensures word in WordTokens(words)
  {
    if words[0] != word {
      WordsAreTokens(words[1..], word);
    }
  }

  /** A whole technical term, hyphens, dots, slashes and percent sign included, is one token besides its parts. */
  lemma WholeWordIsToken(text: string, low: Lowering, a: nat, b: nat)
    requires WordAt(Lower(text, low), a, b)
    ensures RunToken(Lower(text, low), a, b) in Tokens(text, low)
  {
    var s := Lower(text, low);
    WholeWordInWords(s, a, b);
    WordsAreTokens(Words(s), RunToken(s, a, b));
  }

  lemma {:induction false} NoWordsInCjk(s: string)
    requires AllCjk(s)
    ensures Words(s) == []
  {
    if s != "" {
      NoWordsInCjk(s[1..]);
    }
  }

  /** A Chinese text of n characters has one token if n is 1 or 2, and 2n - 3 beyond that: each gram once. */
  lemma ChineseTokenCount(text: string, low: Lowering)
    requires KeepsCjk(low) && AllCjk(text) && text != ""
    ensures |Tokens(text, low)| == if |text| <= 2 then 1 else 2 * |text| - 3
  {
    LowerCjk(text, low);
    NoWordsInCjk(text);
    var n := RunLength(text, Cjk);
    assert n == |text|;
    assert text[..n] == text && text[n..] == "" && Phrases("") == [];
    assert Phrases(text) == [text] && [text][1..] == [];
    assert AllPhraseTokens([text]) == PhraseTokens(text);
  }
}
