/**
 What the normal forms of memories and their keys make of a text
 (backend/services/memory_service.py `normalize_memory`, `normalize_key`): its
 words, joined by single spaces or underscores.
 */
module MemoryForms {
  import opened Options
  import opened Text
  import opened Sequences
  import opened Tokenizer
  import opened Overlap
  import opened MemoryCandidates

  // ------------------------------------------------------------------- words and gaps

  predicate All(s: string, p: char -> bool) {
    forall i :: 0 <= i < |s| ==> p(s[i])
  }

  predicate Free(s: string, p: char -> bool) {
    forall i :: 0 <= i < |s| ==> !p(s[i])
  }

  /** Words free of gap characters, with non-empty gaps between them; only the first and the last may be empty. */
  predicate Wordy(words: seq<string>, gaps: seq<string>, p: char -> bool) {
    && |words| == |gaps| + 1
    && (forall i :: 0 <= i < |words| ==> Free(words[i], p))
    && (forall i :: 0 < i < |words| - 1 ==> words[i] != "")
    && (forall i :: 0 <= i < |gaps| ==> gaps[i] != "" && All(gaps[i], p))
  }

  function Spread(words: seq<string>, gaps: seq<string>): string
    requires |words| == |gaps| + 1
  {
    if gaps == [] then words[0] else words[0] + (gaps[0] + Spread(words[1..], gaps[1..]))
  }

  lemma {:induction false} RunLengthAt(s: string, t: string, p: char -> bool)
    requires All(s, p) && (t == "" || !p(t[0]))
    ensures RunLength(s + t, p) == |s|
  {
    var r := s + t;
    if s == "" {
      assert r == t;
    } else {
      RunLengthAt(s[1..], t, p);
      assert r[1..] == s[1..] + t && r[0] == s[0];
    }
  }

  lemma {:induction false} SqueezeWord(word: string, t: string, p: char -> bool, fill: char)
    requires Free(word, p)
    ensures Squeeze(word + t, p, fill) == word + Squeeze(t, p, fill)
  {
    hide Squeeze;
    if word == "" {
      assert word + t == t;
    } else {
      SqueezeWord(word[1..], t, p, fill);
      SqueezeOther(word[0], word[1..] + t, p, fill);
      assert word + t == [word[0]] + (word[1..] + t);
    }
  }

  lemma SqueezeOther(c: char, t: string, p: char -> bool, fill: char)
    requires !p(c)
    ensures Squeeze([c] + t, p, fill) == [c] + Squeeze(t, p, fill)
  {
    assert ([c] + t)[1..] == t && RunLength([c] + t, p) == 0;
  }

  lemma SqueezeGap(gap: string, t: string, p: char -> bool, fill: char)
    requires gap != "" && All(gap, p) && (t == "" || !p(t[0]))
    ensures Squeeze(gap + t, p, fill) == [fill] + Squeeze(t, p, fill)
  {
    RunLengthAt(gap, t, p);
    assert (gap + t)[|gap|..] == t;
  }

  lemma WordyTail(words: seq<string>, gaps: seq<string>, p: char -> bool)
    requires Wordy(words, gaps, p) && gaps != []
    ensures Wordy(words[1..], gaps[1..], p) && Free(words[0], p) && gaps[0] != "" && All(gaps[0], p)
  {
  }

  /** What stands behind a gap is a word, or nothing. */
  lemma SpreadStarts(words: seq<string>, gaps: seq<string>, p: char -> bool)
    requires Wordy(words, gaps, p) && (gaps != [] ==> words[0] != "")
    ensures var s := Spread(words, gaps); s == "" || !p(s[0])
  {
    if words[0] != "" {
      assert Free(words[0], p) && Spread(words, gaps)[0] == words[0][0];
    }
  }

  /** Squeezing joins the words by the fill character. */
  lemma {:induction false} SqueezeJoins(words: seq<string>, gaps: seq<string>, p: char -> bool, fill: char)
    requires Wordy(words, gaps, p)
    ensures Squeeze(Spread(words, gaps), p, fill) == Join(words, [fill])
    decreases |words|
  {
    assert |words| == |gaps| + 1;
    hide Squeeze, Wordy, All, Free;
    if gaps == [] {
      OnlyWord(words, gaps, p, fill);
    } else {
      var rest := Spread(words[1..], gaps[1..]);
      WordyTail(words, gaps, p);
      InnerWord(words, gaps, p);
      SpreadStarts(words[1..], gaps[1..], p);
      SqueezeJoins(words[1..], gaps[1..], p, fill);
      SqueezeStep(words[0], gaps[0], rest, p, fill);
      assert |words| > 1;
    }
  }

  lemma SqueezeStep(word: string, gap: string, rest: string, p: char -> bool, fill: char)
    requires Free(word, p) && gap != "" && All(gap, p) && (rest == "" || !p(rest[0]))
    ensures Squeeze(word + (gap + rest), p, fill) == word + [fill] + Squeeze(rest, p, fill)
  {
    SqueezeWord(word, gap + rest, p, fill);
    SqueezeGap(gap, rest, p, fill);
    hide Squeeze;
    var squeezed := Squeeze(rest, p, fill);
    assert word + ([fill] + squeezed) == word + [fill] + squeezed;
  }

  lemma InnerWord(words: seq<string>, gaps: seq<string>, p: char -> bool)
    requires Wordy(words, gaps, p) && gaps != []
    ensures gaps[1..] != [] ==> words[1..][0] != ""
  {
  }

  lemma OnlyWord(words: seq<string>, gaps: seq<string>, p: char -> bool, fill: char)
    requires Wordy(words, gaps, p) && gaps == []
    ensures Squeeze(Spread(words, gaps), p, fill) == Join(words, [fill])
  {
    SqueezeWord(words[0], "", p, fill);
    assert words[0] + "" == words[0];
  }

  /** The first and the last word are not empty either. */
  predicate Ended(words: seq<string>) {
    words != [] && words[0] != "" && words[|words| - 1] != ""
  }

  lemma {:induction false} SpreadEnds(words: seq<string>, gaps: seq<string>, p: char -> bool)
    requires Wordy(words, gaps, p) && words[|words| - 1] != ""
    ensures var s := Spread(words, gaps); s != "" && !p(s[|s| - 1])
    decreases |words|
  {
    if gaps != [] {
      WordyTail(words, gaps, p);
      SpreadEnds(words[1..], gaps[1..], p);
      var rest := Spread(words[1..], gaps[1..]);
      assert Spread(words, gaps)[|Spread(words, gaps)| - 1] == rest[|rest| - 1];
    } else {
      assert Free(words[0], p);
    }
  }

  // ------------------------------------------------------------------- contents

  /** The normal form of a content is its words joined by single spaces, whatever whitespace stood around them. */
  lemma NormalMemoryJoinsWords(lead: string, words: seq<string>, gaps: seq<string>, trail: string)
    requires Wordy(words, gaps, PySpace) && Ended(words) && All(lead, PySpace) && All(trail, PySpace)
    ensures NormalizeMemory(lead + Spread(words, gaps) + trail) == Join(words, " ")
  {
    SpreadStarts(words, gaps, PySpace);
    SpreadEnds(words, gaps, PySpace);
    StripAround(lead, Spread(words, gaps), trail, PySpace);
    SqueezeJoins(words, gaps, PySpace, ' ');
  }

  /** A content of whitespace alone has the empty normal form, and no other does. */
  lemma BlankMemoryExactly(text: string)
    ensures NormalizeMemory(text) == "" <==> All(text, PySpace)
  {
    var a, b := StripIsSlice(text, PySpace);
    if a < b {
      assert !PySpace(Strip(text, PySpace)[0]) && Strip(text, PySpace)[0] == text[a];
    }
  }

  // ------------------------------------------------------------------- keys

  /**
   The normal form of a key whose lowered text, without the whitespace around it, is made of words of
   key characters with other characters between them: the words joined by underscores, cut to 120 characters.
   */
  lemma NormalKeyJoinsWords(value: string, low: Lowering, words: seq<string>, gaps: seq<string>)
    requires value != "" && Wordy(words, gaps, NotKeyChar) && Lower(Strip(value, PySpace), low) == Spread(words, gaps)
    ensures NormalizeKey(value, low) == OrGeneral(Take(Join(words, "_"), MAX_KEY))
  {
    SqueezeJoins(words, gaps, NotKeyChar, '_');
    hide Squeeze, Join, Spread;
    var key := Squeeze(Spread(words, gaps), NotKeyChar, '_');
    assert NormalizeKey(value, low) == OrGeneral(Take(key, MAX_KEY));
  }

  /** In particular a key in normal form is left as it is. */
  lemma NormalKeyIsKept(key: string, low: Lowering)
    requires LowersKeys(low) && KeyText(key) && 0 < |key| <= MAX_KEY
    ensures NormalizeKey(key, low) == key
  {
    assert forall c :: LowerKeyChar(c) ==> !PySpace(c);
    assert Strip(key, PySpace) == key;
    LowerLeavesKeys(key, low);
    SqueezeNothing(key, NotKeyChar, '_');
  }

  // ------------------------------------------------------------------- candidates

  /** The candidate at position p, with its content and the key it gives, or else the one inferred, in normal form. */
  predicate Prepares(c: Candidate, given: Candidate, low: Lowering) {
    && c.content == NormalizeMemory(given.content)
    && (given.key != "" ==> c.key == NormalizeKey(given.key, low))
    && (given.key == "" ==> c.key == NormalizeKey(InferKey(given.category, NormalizeMemory(given.content)), low))
    && c.category == given.category && c.source == given.source
    && c.confidence == given.confidence && c.importance == given.importance
  }

  predicate Acceptable(given: Candidate) {
    && NormalizeMemory(given.content) != ""
    && |NormalizeMemory(given.content)| <= 500
  }

  /** Increasing positions of exactly the candidates with a content of 1 to 500 characters in normal form. */
  ghost predicate Counting(at: seq<nat>, cs: seq<Candidate>) {
    && Increasing(at)
    && forall p: nat :: p in at <==> p < |cs| && Acceptable(cs[p])
  }

  predicate PreparesAll(offered: seq<Candidate>, at: seq<nat>, cs: seq<Candidate>, low: Lowering) {
    && |offered| == |at|
    && forall k :: 0 <= k < |at| ==> at[k] < |cs| && Prepares(offered[k], cs[at[k]], low)
  }

  lemma CountingSnoc(at: seq<nat>, cs: seq<Candidate>, c: Candidate)
    requires Counting(at, cs)
    ensures Counting(if Acceptable(c) then at + [|cs|] else at, cs + [c])
  {
    hide Acceptable;
    var longer := if Acceptable(c) then at + [|cs|] else at;
    forall p: nat
      ensures p in longer <==> p < |cs| + 1 && Acceptable((cs + [c])[p])
    {
      assert p in longer <==> p in at || (p == |cs| && Acceptable(c));
    }
    assert forall k :: 0 <= k < |at| ==> at[k] in at;
  }

  lemma PreparesSnoc(offered: seq<Candidate>, at: seq<nat>, cs: seq<Candidate>, c: Candidate, low: Lowering)
    requires PreparesAll(offered, at, cs, low)
    ensures PreparesAll(offered, at, cs + [c], low)
    ensures PreparesAll(offered + [Prepared(c, low)], at + [|cs|], cs + [c], low)
  {
    assert Prepares(Prepared(c, low), c, low);
    hide Prepares, Prepared;
    var more := cs + [c];
    assert forall p :: 0 <= p < |cs| ==> more[p] == cs[p];
    assert more[|cs|] == c;
  }

  lemma EligibleMeansAcceptable(c: Candidate)
    ensures Eligible(c) <==> Acceptable(c)
  {
  }

  /** Exactly the acceptable candidates count, prepared, in order. */
  lemma {:induction false} OfferedExactly(cs: seq<Candidate>, low: Lowering) returns (at: seq<nat>)
    ensures Counting(at, cs)
    ensures PreparesAll(Offered(cs, low), at, cs, low)
  {
    hide Counting, PreparesAll, Eligible, Acceptable, Prepared;
    at := [];
    if cs == [] {
      NothingCounts(low);
    } else {
      var init, c := cs[..|cs| - 1], cs[|cs| - 1];
      assert cs == init + [c];
      at := OfferedExactly(init, low);
      EligibleMeansAcceptable(c);
      assert Offered(init, low) + [] == Offered(init, low);
      CountingSnoc(at, init, c);
      PreparesSnoc(Offered(init, low), at, init, c, low);
      if Acceptable(c) {
        at := at + [|init|];
      }
    }
  }

  lemma NothingCounts(low: Lowering)
    ensures Counting([], []) && PreparesAll([], [], [], low)
  {
  }

  /** Without a key of its own, a preference is stored under one of two keys, by whether it says "do not like". */
  lemma InferredKeys(content: string, low: Lowering)
    requires LowersKeys(low)
    ensures NormalizeKey(InferKey("preference", content), low)
            == if Occurs(['\U{4E0D}', '\U{559C}', '\U{6B22}'], content) then "preference.dislike"
               else "preference.general"
  {
    ContainsIsOccurs(content, ['\U{4E0D}', '\U{559C}', '\U{6B22}']);
    PreferenceKeys();
    hide Contains, Occurs, NormalizeKey, KeyText;
    NormalKeyIsKept("preference.dislike", low);
    NormalKeyIsKept("preference.general", low);
    assert "preference" + ".general" == "preference.general";
  }

  lemma PreferenceKeys()
    ensures KeyText("preference.dislike") && KeyText("preference.general")
  {
  }
}
