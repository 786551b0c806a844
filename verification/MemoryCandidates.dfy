/**
 What one chat turn offers to remember (backend/services/memory_service.py):
 the normal forms of contents and keys, and the loop that keeps one candidate
 per key.
 */
module MemoryCandidates {
  import opened Options
  import opened Text
  import opened Tokenizer

  // ------------------------------------------------------------------- normal forms

  /** `re.sub`: every maximal run of characters satisfying `p` becomes one `fill`. */
  function Squeeze(s: string, p: char -> bool, fill: char): (r: string)
    ensures |r| <= |s| && (r == "" <==> s == "")
    ensures s != "" ==> r[0] == if p(s[0]) then fill else s[0]
    decreases |s|
  {
    var n := RunLength(s, p);
    if s == "" then ""
    else if n > 0 then [fill] + Squeeze(s[n..], p, fill)
    else [s[0]] + Squeeze(s[1..], p, fill)
  }

  function NormalizeMemory(text: string): string {
    Squeeze(Strip(text, PySpace), PySpace, ' ')
  }

  const MAX_KEY: nat := 120

  predicate KeyChar(c: char) {
    'a' <= c <= 'z' || 'A' <= c <= 'Z' || '0' <= c <= '9' || c == '_' || c == '.' || c == '-'
  }

  predicate NotKeyChar(c: char) { !KeyChar(c) }

  function OrGeneral(s: string): string { if s == "" then "general" else s }

  function NormalizeKey(value: string, low: Lowering): string {
    var key := Squeeze(Lower(Strip(OrGeneral(value), PySpace), low), NotKeyChar, '_');
    OrGeneral(if |key| > MAX_KEY then key[..MAX_KEY] else key)
  }

  /** What is assumed of `str.lower`: it yields no ASCII capital, and leaves the other key characters alone. */
  ghost predicate LowersKeys(low: Lowering) {
    && (forall c, i :: 0 <= i < |low(c)| ==> !('A' <= low(c)[i] <= 'Z'))
    && (forall c :: LowerKeyChar(c) ==> low(c) == [c])
  }

  predicate LowerKeyChar(c: char) { KeyChar(c) && !('A' <= c <= 'Z') }

  ghost predicate KeyText(s: string) { forall i :: 0 <= i < |s| ==> LowerKeyChar(s[i]) }

  lemma {:induction false} SqueezeKeys(s: string)
    requires forall i :: 0 <= i < |s| ==> !('A' <= s[i] <= 'Z')
    ensures KeyText(Squeeze(s, NotKeyChar, '_'))
    decreases |s|
  {
    var n := RunLength(s, NotKeyChar);
    if s != "" {
      SqueezeKeys(s[if n > 0 then n else 1..]);
    }
  }

  lemma {:induction false} LowerHasNoCapitals(s: string, low: Lowering)
    requires LowersKeys(low)
    ensures forall i :: 0 <= i < |Lower(s, low)| ==> !('A' <= Lower(s, low)[i] <= 'Z')
  {
    if s != "" {
      LowerHasNoCapitals(s[1..], low);
    }
  }

  lemma {:induction false} LowerLeavesKeys(s: string, low: Lowering)
    requires LowersKeys(low) && KeyText(s)
    ensures Lower(s, low) == s
  {
    if s != "" {
      LowerLeavesKeys(s[1..], low);
      assert LowerKeyChar(s[0]);
    }
  }

  lemma {:induction false} SqueezeNothing(s: string, p: char -> bool, fill: char)
    requires forall i :: 0 <= i < |s| ==> !p(s[i])
    ensures Squeeze(s, p, fill) == s
  {
    if s != "" {
      SqueezeNothing(s[1..], p, fill);
    }
  }

  /** A normal key is not empty, has at most 120 characters, and is its own normal form. */
  lemma NormalKeyIsStable(value: string, low: Lowering)
    requires LowersKeys(low)
    ensures var key := NormalizeKey(value, low);
            0 < |key| <= MAX_KEY && KeyText(key) && NormalizeKey(key, low) == key
  {
    var stripped := Strip(OrGeneral(value), PySpace);
    LowerHasNoCapitals(stripped, low);
    SqueezeKeys(Lower(stripped, low));
    var key := NormalizeKey(value, low);
    assert KeyText(key);
    assert forall c :: LowerKeyChar(c) ==> !PySpace(c);
    assert Strip(key, PySpace) == key;
    LowerLeavesKeys(key, low);
    SqueezeNothing(key, NotKeyChar, '_');
  }

  lemma {:induction false} SqueezeTwice(s: string, p: char -> bool, fill: char)
    requires p(fill)
    ensures Squeeze(Squeeze(s, p, fill), p, fill) == Squeeze(s, p, fill)
    decreases |s|
  {
    var n := RunLength(s, p);
    if s != "" && n > 0 {
      SqueezeTwice(s[n..], p, fill);
      var rest := Squeeze(s[n..], p, fill);
      var r := [fill] + rest;
      assert r[1..] == rest && RunLength(rest, p) == 0;
      assert RunLength(r, p) == 1;
    } else if s != "" {
      SqueezeTwice(s[1..], p, fill);
      var rest := Squeeze(s[1..], p, fill);
      assert ([s[0]] + rest)[1..] == rest;
    }
  }

  lemma {:induction false} SqueezeKeepsEnd(s: string, p: char -> bool, fill: char)
    requires s != "" && !p(s[|s| - 1])
    ensures var r := Squeeze(s, p, fill); r[|r| - 1] == s[|s| - 1]
    decreases |s|
  {
    var n := RunLength(s, p);
    if |s| > 1 {
      SqueezeKeepsEnd(s[if n > 0 then n else 1..], p, fill);
    }
  }

  /** Normal content is its own normal form: it is normalised up to three times on its way in. */
  lemma NormalMemoryIsStable(text: string)
    ensures NormalizeMemory(NormalizeMemory(text)) == NormalizeMemory(text)
  {
    var s := Strip(text, PySpace);
    if s != "" {
      SqueezeKeepsEnd(s, PySpace, ' ');
      SqueezeTwice(s, PySpace, ' ');
      assert Strip(NormalizeMemory(text), PySpace) == NormalizeMemory(text);
    }
  }

  // ------------------------------------------------------------------- one candidate per key

  datatype Candidate = Candidate(content: string, category: string, key: string, source: string, confidence: real,
                                 importance: real)

  const EXPLICIT := "explicit"
  const MAX_CONTENT: nat := 500
  const MAX_CANDIDATES: nat := 5

  /** `infer_memory_key`; the phrase is the Chinese for "do not like". */
  function InferKey(category: string, content: string): string {
    if category == "identity" then "identity.display_name"
    else if category == "profile" then "profile.general"
    else if category == "forget_request" then "control.forget"
    else if Contains(content, ['\U{4E0D}', '\U{559C}', '\U{6B22}']) then "preference.dislike"
    else (if category == "" then "memory" else category) + ".general"
  }

  function Prepared(c: Candidate, low: Lowering): Candidate {
    var content := NormalizeMemory(c.content);
    c.(content := content, key := NormalizeKey(if c.key != "" then c.key else InferKey(c.category, content), low))
  }

  predicate Eligible(c: Candidate) { 0 < |NormalizeMemory(c.content)| <= MAX_CONTENT }

  /** The candidates that reach the dictionary, prepared, in order. */
  function Offered(cs: seq<Candidate>, low: Lowering): seq<Candidate> {
    if cs == [] then [] else
      var c := cs[|cs| - 1];
      Offered(cs[..|cs| - 1], low) + if Eligible(c) then [Prepared(c, low)] else []
  }

  /** The keys offered, in order of first appearance. */
  function KeysOf(cs: seq<Candidate>): seq<string> {
    if cs == [] then [] else
      var keys := KeysOf(cs[..|cs| - 1]);
      if cs[|cs| - 1].key in keys then keys else keys + [cs[|cs| - 1].key]
  }

  predicate Counts(c: Candidate, key: string, explicitly: bool) {
    c.key == key && (explicitly ==> c.source == EXPLICIT)
  }

  function Last(cs: seq<Candidate>, key: string, explicitly: bool): (r: Option<Candidate>)
    ensures r.None? <==> forall i :: 0 <= i < |cs| ==> !Counts(cs[i], key, explicitly)
    ensures r.Some? ==> r.value in cs && Counts(r.value, key, explicitly)
  {
    if cs == [] then None
    else if Counts(cs[|cs| - 1], key, explicitly) then Some(cs[|cs| - 1])
    else Last(cs[..|cs| - 1], key, explicitly)
  }

  /** Whose word counts for a key: the last explicit one, or the last one if none is explicit. */
  function Winner(cs: seq<Candidate>, key: string): Option<Candidate> {
    if Last(cs, key, true).Some? then Last(cs, key, true) else Last(cs, key, false)
  }

  ghost predicate Entry(kept: seq<Candidate>, keys: seq<string>, cs: seq<Candidate>, i: nat) {
    i < |kept| && i < |keys| && kept[i].key == keys[i] && Winner(cs, keys[i]) == Some(kept[i])
  }

  /** `kept` is the dictionary after `cs`: one winner per key, keys in order of first appearance. */
  ghost predicate Deduplicates(kept: seq<Candidate>, keys: seq<string>, cs: seq<Candidate>) {
    |kept| == |keys| && forall i: nat :: i < |kept| ==> Entry(kept, keys, cs, i)
  }

  lemma {:induction false} KeysAreThoseOffered(cs: seq<Candidate>)
    ensures forall i, j :: 0 <= i < j < |KeysOf(cs)| ==> KeysOf(cs)[i] != KeysOf(cs)[j]
    ensures forall key :: key in KeysOf(cs) <==> exists i :: 0 <= i < |cs| && cs[i].key == key
  {
    if cs != [] {
      KeysAreThoseOffered(cs[..|cs| - 1]);
      assert cs == cs[..|cs| - 1] + [cs[|cs| - 1]];
    }
  }

  predicate StandsAgainst(winner: Option<Candidate>, c: Candidate) {
    winner.Some? && winner.value.source == EXPLICIT && c.source != EXPLICIT
  }

  /** Adding `c`: its key's winner changes unless an explicit one stands against it; no other does. */
  lemma WinnerAfter(cs: seq<Candidate>, c: Candidate, key: string)
    ensures Winner(cs + [c], key) ==
            if c.key != key || StandsAgainst(Winner(cs, key), c) then Winner(cs, key) else Some(c)
  {
    assert (cs + [c])[..|cs|] == cs;
  }

  /** The dictionary entry for a key, by position. */
  function IndexOf(kept: seq<Candidate>, key: string): (i: nat)
    ensures i <= |kept|
    ensures i < |kept| ==> kept[i].key == key
    ensures i == |kept| ==> forall j :: 0 <= j < |kept| ==> kept[j].key != key
  {
    if kept == [] || kept[0].key == key then 0 else 1 + IndexOf(kept[1..], key)
  }

  function Offer(kept: seq<Candidate>, c: Candidate): seq<Candidate> {
    var i := IndexOf(kept, c.key);
    if i == |kept| then kept + [c]
    else if kept[i].source == EXPLICIT && c.source != EXPLICIT then kept
    else kept[i := c]
  }

  lemma OfferDeduplicates(kept: seq<Candidate>, keys: seq<string>, cs: seq<Candidate>, c: Candidate)
    requires Deduplicates(kept, keys, cs)
    requires forall i, j :: 0 <= i < j < |keys| ==> keys[i] != keys[j]
    requires c.key !in keys ==> Winner(cs, c.key) == None
    ensures Deduplicates(Offer(kept, c), if c.key in keys then keys else keys + [c.key], cs + [c])
  {
    var i, after, keys' := IndexOf(kept, c.key), Offer(kept, c), if c.key in keys then keys else keys + [c.key];
    forall j: nat | j < |kept|
      ensures kept[j].key == keys[j]
    {
      assert Entry(kept, keys, cs, j);
    }
    assert c.key in keys <==> i < |kept|;
    forall j: nat | j < |after|
      ensures Entry(after, keys', cs + [c], j)
    {
      assert j < |kept| ==> Entry(kept, keys, cs, j);
      WinnerAfter(cs, c, keys'[j]);
    }
  }

  lemma KeysAfter(cs: seq<Candidate>, c: Candidate)
    ensures KeysOf(cs + [c]) == if c.key in KeysOf(cs) then KeysOf(cs) else KeysOf(cs) + [c.key]
    ensures forall i, j :: 0 <= i < j < |KeysOf(cs)| ==> KeysOf(cs)[i] != KeysOf(cs)[j]
    ensures c.key !in KeysOf(cs) ==> Winner(cs, c.key) == None
  {
    assert (cs + [c])[..|cs|] == cs;
    KeysAreThoseOffered(cs);
  }

  /**
   The loop of `extract_memory_candidates`: the winners of the first five keys,
   each with a normal key and normal content, so that storing them in one turn
   never touches one record twice.
   */
  method Deduplicate(candidates: seq<Candidate>, low: Lowering) returns (kept: seq<Candidate>)
    requires LowersKeys(low)
    ensures |kept| <= MAX_CANDIDATES
    ensures var cs := Offered(candidates, low);
            |kept| == (if |KeysOf(cs)| < MAX_CANDIDATES then |KeysOf(cs)| else MAX_CANDIDATES)
            && forall i: nat :: i < |kept| ==> Entry(kept, KeysOf(cs), cs, i)
    ensures forall i, j :: 0 <= i < j < |kept| ==> NormalizeKey(kept[i].key, low) != NormalizeKey(kept[j].key, low)
    ensures forall i :: 0 <= i < |kept| ==>
              NormalizeKey(kept[i].key, low) == kept[i].key && NormalizeMemory(kept[i].content) == kept[i].content
  {
    hide Winner, NormalizeKey, NormalizeMemory, Entry;
    kept := [];
    ghost var cs := [];
    for i := 0 to |candidates|
      invariant cs == Offered(candidates[..i], low) && Deduplicates(kept, KeysOf(cs), cs)
    {
      assert candidates[..i + 1][..i] == candidates[..i];
      if Eligible(candidates[i]) {
        var c := Prepared(candidates[i], low);
        KeysAfter(cs, c);
        OfferDeduplicates(kept, KeysOf(cs), cs, c);
        var at := IndexOf(kept, c.key);
        if at == |kept| {
          kept := kept + [c];
        } else if !(kept[at].source == EXPLICIT && c.source != EXPLICIT) {
          kept := kept[at := c];
        }
        cs := cs + [c];
      }
    }
    assert candidates[..|candidates|] == candidates;
    KeysAreThoseOffered(cs);
    ghost var all := kept;
    kept := kept[..if |kept| < MAX_CANDIDATES then |kept| else MAX_CANDIDATES];
    forall i: nat | i < |kept|
      ensures Entry(kept, KeysOf(cs), cs, i) && kept[i].key == KeysOf(cs)[i]
      ensures NormalizeKey(kept[i].key, low) == kept[i].key && NormalizeMemory(kept[i].content) == kept[i].content
    {
      EntryKept(all, kept, KeysOf(cs), cs, i);
      EntryIsOffered(kept, KeysOf(cs), cs, i);
      OfferedAreNormal(candidates, low, kept[i]);
    }
  }

  lemma EntryKept(all: seq<Candidate>, kept: seq<Candidate>, keys: seq<string>, cs: seq<Candidate>, i: nat)
    requires Entry(all, keys, cs, i) && i < |kept| <= |all| && kept == all[..|kept|]
    ensures Entry(kept, keys, cs, i)
  {
  }

  lemma EntryIsOffered(kept: seq<Candidate>, keys: seq<string>, cs: seq<Candidate>, i: nat)
    requires Entry(kept, keys, cs, i)
    ensures i < |kept| && i < |keys| && kept[i].key == keys[i] && kept[i] in cs
  {
  }

  lemma {:induction false} OfferedAreNormal(cs: seq<Candidate>, low: Lowering, c: Candidate)
    requires LowersKeys(low) && c in Offered(cs, low)
    ensures NormalizeKey(c.key, low) == c.key && NormalizeMemory(c.content) == c.content
    ensures 0 < |c.content| <= MAX_CONTENT
  {
    var last := cs[|cs| - 1];
    if c in Offered(cs[..|cs| - 1], low) {
      OfferedAreNormal(cs[..|cs| - 1], low, c);
    } else {
      assert c == Prepared(last, low);
      NormalMemoryIsStable(last.content);
      NormalKeyIsStable(if last.key != "" then last.key else InferKey(last.category, c.content), low);
    }
  }
}
