/**
 `clean_text` (backend/retriever.py): five substitutions and a strip. Each one
 shortens the text and removes only whitespace, hyphens and soft hyphens.
 */
module Cleaning {
  import opened Text

  const SOFT_HYPHEN: char := '\U{00AD}'

  /** Separator punctuation of the splitter. */
  predicate Punctuation(c: char) {
    c in "。！？.;；，,"
  }

  /** The characters that cleaning must never lose. */
  predicate Mark(c: char) {
    !PySpace(c) && c != '-' && c != SOFT_HYPHEN
  }

  /** The characters that splitting must never lose either. */
  predicate Ink(c: char) {
    Mark(c) && !Punctuation(c)
  }

  /** `b` is a shortened form of `a` with the same marks. */
  predicate Shortens(a: string, b: string) {
    |b| <= |a| && Filter(b, Mark) == Filter(a, Mark)
  }

  /** Python's `s.replace(old, new)`: leftmost, non-overlapping. */
  function Replace(s: string, old_: string, new_: string): string
    requires old_ != ""
    decreases |s|
  {
    if |s| < |old_| then s
    else if s[..|old_|] == old_ then new_ + Replace(s[|old_|..], old_, new_)
    else [s[0]] + Replace(s[1..], old_, new_)
  }

  predicate AsciiLetter(c: char) {
    'a' <= c <= 'z' || 'A' <= c <= 'Z'
  }

  /** A word broken by a hyphen at the end of a line starts here. */
  predicate StartsBreak(s: string) {
    |s| >= 4 && AsciiLetter(s[0]) && s[1] == '-' && s[2] == '\n' && AsciiLetter(s[3])
  }

  /** `re.sub(r"([A-Za-z])-\n([A-Za-z])", r"\1\2", s)`: the second letter is consumed by the match. */
  function JoinHyphenated(s: string): string {
    if StartsBreak(s) then
      [s[0]] + [s[3]] + JoinHyphenated(s[4..])
    else if s == "" then ""
    else [s[0]] + JoinHyphenated(s[1..])
  }

  predicate Blank(c: char) { c == ' ' || c == '\t' }
  predicate Newline(c: char) { c == '\n' }

  /** `re.sub(r"[ \t]+", " ", s)`. */
  function CollapseBlanks(s: string): string
    decreases |s|
  {
    if s == "" then ""
    else if Blank(s[0]) then
      assert RunLength(s, Blank) > 0;
      " " + CollapseBlanks(s[RunLength(s, Blank)..])
    else [s[0]] + CollapseBlanks(s[1..])
  }

  /** `re.sub(r"\n{3,}", "\n\n", s)`. */
  function CollapseNewlines(s: string): string
    decreases |s|
  {
    if s == "" then ""
    else if Newline(s[0]) then
      var n := RunLength(s, Newline);
      assert n > 0;
      (if n >= 3 then "\n\n" else s[..n]) + CollapseNewlines(s[n..])
    else [s[0]] + CollapseNewlines(s[1..])
  }

  /** Non-empty, with no whitespace at either end. */
  predicate Tidy(s: string) {
    s != "" && !PySpace(s[0]) && !PySpace(s[|s| - 1])
  }

  /** Newlines normalised and soft hyphens removed. */
  function Unwrapped(text: string): string {
    Replace(Replace(Replace(text, "\r\n", "\n"), "\r", "\n"), [SOFT_HYPHEN], "")
  }

  function Collapsed(s: string): string {
    Strip(CollapseNewlines(CollapseBlanks(s)), PySpace)
  }

  function CleanText(text: string): (r: string)
    ensures r != "" ==> Tidy(r)
  {
    Collapsed(JoinHyphenated(Unwrapped(text)))
  }

  // ------------------------------------------------- each stage keeps the marks

  lemma ShortensSplit(a1: string, a2: string, b1: string, b2: string)
    requires Shortens(a1, b1) && Shortens(a2, b2)
    ensures Shortens(a1 + a2, b1 + b2)
  {
    FilterAppend(a1, a2, Mark);
    FilterAppend(b1, b2, Mark);
  }

  lemma BlankOut(a: string, b: string)
    requires |b| <= |a|
    requires forall i :: 0 <= i < |a| ==> !Mark(a[i])
    requires forall i :: 0 <= i < |b| ==> !Mark(b[i])
    ensures Shortens(a, b)
  {
    FilterNone(a, Mark);
    FilterNone(b, Mark);
  }

  lemma {:induction false} ReplaceShortens(s: string, old_: string, new_: string)
    requires old_ != "" && |new_| <= |old_|
    requires forall i :: 0 <= i < |old_| ==> !Mark(old_[i])
    requires forall i :: 0 <= i < |new_| ==> !Mark(new_[i])
    ensures Shortens(s, Replace(s, old_, new_))
    decreases |s|
  {
    if |s| < |old_| {
    } else if s[..|old_|] == old_ {
      ReplaceShortens(s[|old_|..], old_, new_);
      BlankOut(old_, new_);
      ShortensSplit(old_, s[|old_|..], new_, Replace(s[|old_|..], old_, new_));
      assert s == old_ + s[|old_|..];
    } else {
      ReplaceShortens(s[1..], old_, new_);
      ShortensSplit([s[0]], s[1..], [s[0]], Replace(s[1..], old_, new_));
      assert s == [s[0]] + s[1..];
    }
  }

  lemma HyphenBreakShortens(a: char, b: char, t: string, u: string)
    requires Shortens(t, u)
    ensures Shortens([a, '-', '\n', b] + t, [a] + [b] + u)
  {
    FilterAppend([a, '-', '\n', b], t, Mark);
    FilterAppend([a] + [b], u, Mark);
    assert [a, '-', '\n', b] == [a] + "-\n" + [b];
    FilterAppend([a] + "-\n", [b], Mark);
    FilterAppend([a], "-\n", Mark);
    FilterAppend([a], [b], Mark);
    FilterNone("-\n", Mark);
  }

  lemma {:induction false} JoinHyphenatedShortens(s: string)
    ensures Shortens(s, JoinHyphenated(s))
  {
    if StartsBreak(s) {
      JoinHyphenatedShortens(s[4..]);
      HyphenBreakShortens(s[0], s[3], s[4..], JoinHyphenated(s[4..]));
      assert s == [s[0], '-', '\n', s[3]] + s[4..];
    } else if s != "" {
      JoinHyphenatedShortens(s[1..]);
      ShortensSplit([s[0]], s[1..], [s[0]], JoinHyphenated(s[1..]));
      assert s == [s[0]] + s[1..];
    }
  }

  lemma {:induction false} CollapseBlanksShortens(s: string)
    ensures Shortens(s, CollapseBlanks(s))
    decreases |s|
  {
    if s == "" {
    } else if Blank(s[0]) {
      var n := RunLength(s, Blank);
      CollapseBlanksShortens(s[n..]);
      BlankOut(s[..n], " ");
      ShortensSplit(s[..n], s[n..], " ", CollapseBlanks(s[n..]));
      assert s == s[..n] + s[n..];
    } else {
      CollapseBlanksShortens(s[1..]);
      ShortensSplit([s[0]], s[1..], [s[0]], CollapseBlanks(s[1..]));
      assert s == [s[0]] + s[1..];
    }
  }

  lemma {:induction false} CollapseNewlinesShortens(s: string)
    ensures Shortens(s, CollapseNewlines(s))
    decreases |s|
  {
    if s == "" {
    } else if Newline(s[0]) {
      var n := RunLength(s, Newline);
      var head := if n >= 3 then "\n\n" else s[..n];
      CollapseNewlinesShortens(s[n..]);
      BlankOut(s[..n], head);
      ShortensSplit(s[..n], s[n..], head, CollapseNewlines(s[n..]));
      assert s == s[..n] + s[n..];
    } else {
      CollapseNewlinesShortens(s[1..]);
      ShortensSplit([s[0]], s[1..], [s[0]], CollapseNewlines(s[1..]));
      assert s == [s[0]] + s[1..];
    }
  }

  lemma StripShortens(s: string)
    ensures Shortens(s, Strip(s, PySpace))
  {
    var a, b := StripIsSlice(s, PySpace);
    assert s == s[..a] + (s[a..b] + s[b..]);
    BlankOut(s[..a], "");
    BlankOut(s[b..], "");
    ShortensSplit(s[a..b], s[b..], s[a..b], "");
    ShortensSplit(s[..a], s[a..b] + s[b..], "", s[a..b] + "");
    assert "" + (s[a..b] + "") == s[a..b];
  }

  /** Cleaning shortens the text and keeps the marks in order. */
  lemma CleaningKeepsMarks(text: string)
    ensures |CleanText(text)| <= |text|
    ensures Filter(CleanText(text), Mark) == Filter(text, Mark)
  {
    var t1 := Replace(text, "\r\n", "\n");
    var t2 := Replace(t1, "\r", "\n");
    var t3 := Replace(t2, [SOFT_HYPHEN], "");
    ReplaceShortens(text, "\r\n", "\n");
    ReplaceShortens(t1, "\r", "\n");
    ReplaceShortens(t2, [SOFT_HYPHEN], "");
    JoinHyphenatedShortens(t3);
    CollapseBlanksShortens(JoinHyphenated(t3));
    CollapseNewlinesShortens(CollapseBlanks(JoinHyphenated(t3)));
    StripShortens(CollapseNewlines(CollapseBlanks(JoinHyphenated(t3))));
  }

  /** So it keeps the ink in order. */
  lemma CleaningKeepsInk(text: string)
    ensures |CleanText(text)| <= |text|
    ensures Filter(CleanText(text), Ink) == Filter(text, Ink)
  {
    CleaningKeepsMarks(text);
    FilterTwice(text, Mark, Ink);
    FilterTwice(CleanText(text), Mark, Ink);
  }

  // ------------------------------------------------------- the normal form of clean text

  predicate NoBlankPair(s: string) {
    forall i :: 0 <= i < |s| - 1 ==> !(Blank(s[i]) && Blank(s[i + 1]))
  }

  predicate NoNewlineTriple(s: string) {
    forall i :: 0 <= i < |s| - 2 ==> !(Newline(s[i]) && Newline(s[i + 1]) && Newline(s[i + 2]))
  }

  lemma {:induction false} ReplaceRemoves(s: string, c: char, fill: string)
    requires c !in fill
    ensures c !in Replace(s, [c], fill)
    decreases |s|
  {
    if s != "" {
      ReplaceRemoves(s[1..], c, fill);
    }
  }

  lemma {:induction false} ReplaceAddsNothing(s: string, old_: string, fill: string, c: char)
    requires old_ != "" && c !in s && c !in fill
    ensures c !in Replace(s, old_, fill)
    decreases |s|
  {
    if |s| >= |old_| {
      ReplaceAddsNothing(if s[..|old_|] == old_ then s[|old_|..] else s[1..], old_, fill, c);
    }
  }

  lemma {:induction false} JoinHyphenatedAddsNothing(s: string, c: char)
    requires c !in s
    ensures c !in JoinHyphenated(s)
  {
    if |s| >= 4 {
      JoinHyphenatedAddsNothing(s[4..], c);
    }
    if s != "" {
      JoinHyphenatedAddsNothing(s[1..], c);
    }
  }

  lemma {:induction false} CollapsedBlanks(s: string, c: char)
    ensures '\t' !in CollapseBlanks(s) && NoBlankPair(CollapseBlanks(s))
    ensures CollapseBlanks(s) != "" <==> s != ""
    ensures s != "" && !Blank(s[0]) ==> CollapseBlanks(s)[0] == s[0]
    ensures c !in s && c != ' ' ==> c !in CollapseBlanks(s)
    decreases |s|
  {
    if s != "" {
      var n := RunLength(s, Blank);
      CollapsedBlanks(s[if n > 0 then n else 1..], c);
    }
  }

  lemma {:induction false} CollapseNewlinesAddsNothing(s: string, c: char)
    requires c !in s
    ensures c !in CollapseNewlines(s)
    decreases |s|
  {
    if s != "" {
      var n := RunLength(s, Newline);
      CollapseNewlinesAddsNothing(s[if n > 0 then n else 1..], c);
    }
  }

  lemma {:induction false} CollapsedNewlines(s: string)
    requires NoBlankPair(s)
    ensures NoNewlineTriple(CollapseNewlines(s)) && NoBlankPair(CollapseNewlines(s))
    ensures CollapseNewlines(s) != "" <==> s != ""
    ensures s != "" ==> CollapseNewlines(s)[0] == s[0]
    decreases |s|
  {
    if s != "" {
      var n := RunLength(s, Newline);
      if n > 0 {
        var t := s[n..];
        TailHasNoBlankPair(s, n);
        CollapsedNewlines(t);
        PrependNewlines(if n >= 3 then "\n\n" else s[..n], CollapseNewlines(t));
      } else {
        var t := s[1..];
        TailHasNoBlankPair(s, 1);
        CollapsedNewlines(t);
        PrependOther(s[0], CollapseNewlines(t));
      }
    }
  }

  lemma TailHasNoBlankPair(s: string, k: nat)
    requires k <= |s| && NoBlankPair(s)
    ensures NoBlankPair(s[k..])
  {
  }

  lemma PrependNewlines(head: string, rest: string)
    requires |head| <= 2 && forall i :: 0 <= i < |head| ==> head[i] == '\n'
    requires NoNewlineTriple(rest) && NoBlankPair(rest) && (rest != "" ==> !Newline(rest[0]))
    ensures NoNewlineTriple(head + rest) && NoBlankPair(head + rest)
  {
    var r := head + rest;
    assert forall i :: |head| <= i < |r| ==> r[i] == rest[i - |head|];
  }

  lemma PrependOther(x: char, rest: string)
    requires !Newline(x) && NoNewlineTriple(rest) && NoBlankPair(rest)
    requires rest != "" ==> !(Blank(x) && Blank(rest[0]))
    ensures NoNewlineTriple([x] + rest) && NoBlankPair([x] + rest)
  {
    var r := [x] + rest;
    assert forall i :: 1 <= i < |r| ==> r[i] == rest[i - 1];
  }

  /**
   What clean text looks like: no carriage return, soft hyphen or tab, no two
   blanks and no three newlines in a row, and nothing to strip.
   */
  lemma CleanTextIsNormal(text: string)
    ensures var r := CleanText(text);
            && '\r' !in r && SOFT_HYPHEN !in r && '\t' !in r
            && NoBlankPair(r) && NoNewlineTriple(r)
            && (r != "" ==> Tidy(r))
  {
    hide Replace, JoinHyphenated, Collapsed;
    var soft := Unwrapped(text);
    UnwrappedIsPlain(text);
    JoinHyphenatedAddsNothing(soft, '\r');
    JoinHyphenatedAddsNothing(soft, SOFT_HYPHEN);
    CollapsedAndStripped(JoinHyphenated(soft), '\r');
    CollapsedAndStripped(JoinHyphenated(soft), SOFT_HYPHEN);
  }

  lemma UnwrappedIsPlain(text: string)
    ensures '\r' !in Unwrapped(text) && SOFT_HYPHEN !in Unwrapped(text)
  {
    hide Replace;
    var once := Replace(text, "\r\n", "\n");
    var newlines := Replace(once, "\r", "\n");
    ReplaceRemoves(once, '\r', "\n");
    ReplaceRemoves(newlines, SOFT_HYPHEN, "");
    ReplaceAddsNothing(newlines, [SOFT_HYPHEN], "", '\r');
  }

  lemma CollapsedAndStripped(s: string, c: char)
    requires c !in s && c != ' '
    ensures var r := Collapsed(s);
            c !in r && '\t' !in r && NoBlankPair(r) && NoNewlineTriple(r)
  {
    hide CollapseBlanks, CollapseNewlines, Strip, NoBlankPair, NoNewlineTriple;
    var blanks := CollapseBlanks(s);
    CollapsedBlanks(s, c);
    CollapsedNewlines(blanks);
    CollapseNewlinesAddsNothing(blanks, c);
    CollapseNewlinesAddsNothing(blanks, '\t');
    var lines := CollapseNewlines(blanks);
    var a, b := StripIsSlice(lines, PySpace);
    SliceStaysNormal(lines, a, b, c);
    SliceStaysNormal(lines, a, b, '\t');
  }

  lemma SliceStaysNormal(s: string, a: nat, b: nat, c: char)
    requires a <= b <= |s| && NoBlankPair(s) && NoNewlineTriple(s) && c !in s
    ensures NoBlankPair(s[a..b]) && NoNewlineTriple(s[a..b]) && c !in s[a..b]
  {
  }

  lemma {:induction false} ReplaceAbsent(s: string, old_: string, new_: string)
    requires old_ != "" && old_[0] !in s
    ensures Replace(s, old_, new_) == s
  {
    if |s| >= |old_| {
      ReplaceAbsent(s[1..], old_, new_);
    }
  }

  lemma {:induction false} NothingToCollapse(s: string)
    requires '\t' !in s && NoBlankPair(s) && NoNewlineTriple(s)
    ensures CollapseBlanks(s) == s && CollapseNewlines(s) == s
    decreases |s|
  {
    if s != "" {
      TailStaysCollapsed(s, 1);
      NothingToCollapse(s[1..]);
      if Newline(s[0]) {
        var n := RunLength(s, Newline);
        TailStaysCollapsed(s, n);
        NothingToCollapse(s[n..]);
      }
    }
  }

  lemma TailStaysCollapsed(s: string, k: nat)
    requires k <= |s| && '\t' !in s && NoBlankPair(s) && NoNewlineTriple(s)
    ensures '\t' !in s[k..] && NoBlankPair(s[k..]) && NoNewlineTriple(s[k..])
  {
  }

  lemma {:induction false} HyphenFree(s: string)
    requires '-' !in s
    ensures JoinHyphenated(s) == s
  {
    if s != "" {
      HyphenFree(s[1..]);
    }
  }

  /** Already as cleaning leaves a text: nothing to collapse or strip. */
  predicate Settled(t: string) {
    && '\t' !in t && NoBlankPair(t) && NoNewlineTriple(t)
    && (t != "" ==> Tidy(t))
  }

  lemma NothingToUnwrap(s: string)
    requires '\r' !in s && SOFT_HYPHEN !in s
    ensures Unwrapped(s) == s
  {
    ReplaceAbsent(s, "\r\n", "\n");
    ReplaceAbsent(s, "\r", "\n");
    ReplaceAbsent(s, [SOFT_HYPHEN], "");
  }

  /** On a text with nothing to replace or collapse, cleaning only joins hyphenated words. */
  lemma CleaningPlainText(s: string, t: string)
    requires '\r' !in s && SOFT_HYPHEN !in s && t == JoinHyphenated(s) && Settled(t)
    ensures CleanText(s) == t
  {
    NothingToUnwrap(s);
    NothingToCollapse(t);
  }

  lemma JoinsOnce()
    ensures JoinHyphenated("a-\nb-\nc") == "ab-\nc"
    ensures JoinHyphenated("ab-\nc") == "abc"
  {
    var s, t := "a-\nb-\nc", "ab-\nc";
    assert s[4..] == "-\nc" && "-\nc"[1..] == "\nc" && "\nc"[1..] == "c" && "c"[1..] == "";
    assert JoinHyphenated("-\nc") == "-\nc";
    assert t[1..] == "b-\nc" && "b-\nc"[4..] == "";
  }

  lemma JoinedIsSettled(s: string)
    requires s == "ab-\nc" || s == "abc"
    ensures Settled(s)
  {
  }

  lemma NothingToReplace(s: string)
    requires s == "a-\nb-\nc" || s == "ab-\nc"
    ensures '\r' !in s && SOFT_HYPHEN !in s
  {
  }

  /**
   Cleaning twice is not cleaning once: joining a hyphenated word consumes the
   letter that the next line break would need.
   */
  lemma CleaningIsNotIdempotent(s: string)
    requires s == "a-\nb-\nc"
    ensures CleanText(s) == "ab-\nc" && CleanText(CleanText(s)) == "abc"
  {
    JoinsOnce();
    var once, twice := JoinHyphenated(s), JoinHyphenated(JoinHyphenated(s));
    NothingToReplace(s);
    NothingToReplace(once);
    JoinedIsSettled(once);
    JoinedIsSettled(twice);
    CleaningPlainText(s, once);
    CleaningPlainText(once, twice);
  }
}
