/**
 When cleaning a text twice is cleaning it once (backend/retriever.py
 `clean_text`): exactly when no letter closes one broken word and opens the next.
 */
module Recleaning {
  import opened Text
  import opened Cleaning

  // ------------------------------------------------------------------- broken words

  /** What follows the first letter of a broken word. */
  predicate Continues(s: string) {
    |s| >= 3 && s[0] == '-' && s[1] == '\n' && AsciiLetter(s[2])
  }

  predicate HasBreak(s: string) {
    s != "" && (StartsBreak(s) || HasBreak(s[1..]))
  }

  /** Two broken words that share a letter: a letter, `-\n`, a letter, `-\n`, a letter. */
  predicate StartsChain(s: string) {
    StartsBreak(s) && Continues(s[4..])
  }

  predicate HasChain(s: string) {
    s != "" && (StartsChain(s) || HasChain(s[1..]))
  }

  lemma BreakCons(x: char, t: string)
    ensures HasBreak([x] + t) <==> (AsciiLetter(x) && Continues(t)) || HasBreak(t)
  {
    var s := [x] + t;
    assert s[1..] == t;
  }

  lemma BreakOf(s: string)
    requires s != ""
    ensures HasBreak(s) <==> (AsciiLetter(s[0]) && Continues(s[1..])) || HasBreak(s[1..])
  {
  }

  /** Characters that are no letters open no broken word. */
  lemma {:induction false} BreakAfter(s: string, n: nat)
    requires n <= |s| && forall i :: 0 <= i < n ==> !AsciiLetter(s[i])
    ensures HasBreak(s) <==> HasBreak(s[n..])
  {
    if n > 0 {
      BreakOf(s);
      BreakAfter(s[1..], n - 1);
      assert s[1..][n - 1..] == s[n..];
    }
  }

  /** Nor do they close one. */
  lemma {:induction false} BreakBefore(s: string)
    requires s != "" && !AsciiLetter(s[|s| - 1])
    ensures HasBreak(s) <==> HasBreak(s[..|s| - 1])
  {
    BreakOf(s);
    if |s| > 1 {
      BreakBefore(s[1..]);
      var t := s[..|s| - 1];
      BreakOf(t);
      assert t[1..] == s[1..][..|s| - 2] && t[0] == s[0];
    }
  }

  // ------------------------------------------------------------------- joining leaves chains

  lemma JoinBegins(s: string)
    ensures JoinHyphenated(s) == "" <==> s == ""
    ensures s != "" ==> JoinHyphenated(s)[0] == s[0]
    ensures s != "" && !AsciiLetter(s[0]) ==> JoinHyphenated(s) == [s[0]] + JoinHyphenated(s[1..])
  {
  }

  lemma JoinContinues(s: string)
    ensures Continues(JoinHyphenated(s)) <==> Continues(s)
  {
    hide JoinHyphenated;
    JoinBegins(s);
    if s != "" && s[0] == '-' {
      JoinBegins(s[1..]);
      if |s| > 1 && s[1] == '\n' {
        assert s[1..][1..] == s[2..];
        JoinBegins(s[2..]);
      }
    }
  }

  lemma ChainOf(s: string)
    requires s != ""
    ensures HasChain(s) <==> StartsChain(s) || HasChain(s[1..])
  {
  }

  /** Over a broken word, a chain starts here or after it. */
  lemma ChainOver(s: string)
    requires StartsBreak(s)
    ensures HasChain(s) <==> Continues(s[4..]) || HasChain(s[4..])
  {
    hide HasChain;
    ChainOf(s);
    ChainOf(s[1..]);
    assert s[1..][1..] == s[2..];
    ChainOf(s[2..]);
    assert s[2..][1..] == s[3..];
    ChainOf(s[3..]);
    assert s[3..][1..] == s[4..];
  }

  /** Joining leaves a broken word behind exactly when two of them shared a letter. */
  lemma {:induction false} JoinLeavesChains(s: string)
    ensures HasBreak(JoinHyphenated(s)) <==> HasChain(s)
  {
    hide HasBreak, HasChain, Continues;
    if StartsBreak(s) {
      var rest := s[4..];
      ChainOver(s);
      JoinLeavesChains(rest);
      JoinContinues(rest);
      var tail := [s[3]] + JoinHyphenated(rest);
      BreakCons(s[3], JoinHyphenated(rest));
      BreakCons(s[0], tail);
      NotContinued(tail);
      assert JoinHyphenated(s) == [s[0]] + tail;
    } else if s != "" {
      var rest := s[1..];
      ChainOf(s);
      JoinLeavesChains(rest);
      JoinContinues(rest);
      BreakCons(s[0], JoinHyphenated(rest));
      UnbrokenStart(s);
    } else {
      NoneInNothing();
    }
  }

  lemma NotContinued(t: string)
    requires t != "" && AsciiLetter(t[0])
    ensures !Continues(t)
  {
  }

  lemma UnbrokenStart(s: string)
    requires s != "" && !StartsBreak(s)
    ensures !(AsciiLetter(s[0]) && Continues(s[1..]))
  {
  }

  lemma NoneInNothing()
    ensures !HasBreak("") && !HasChain("")
  {
  }

  // ------------------------------------------------------------------- collapsing keeps broken words

  lemma BlanksBegin(s: string)
    ensures CollapseBlanks(s) == "" <==> s == ""
    ensures s != "" && Blank(s[0]) ==> CollapseBlanks(s)[0] == ' '
    ensures s != "" && !Blank(s[0]) ==> CollapseBlanks(s) == [s[0]] + CollapseBlanks(s[1..])
  {
  }

  lemma BlanksContinue(s: string)
    ensures Continues(CollapseBlanks(s)) <==> Continues(s)
  {
    hide CollapseBlanks;
    BlanksBegin(s);
    if s != "" && s[0] == '-' {
      BlanksBegin(s[1..]);
      if |s| > 1 && s[1] == '\n' {
        assert s[1..][1..] == s[2..];
        BlanksBegin(s[2..]);
      }
    }
  }

  lemma {:induction false} BlanksKeepBreaks(s: string)
    ensures HasBreak(CollapseBlanks(s)) <==> HasBreak(s)
    decreases |s|
  {
    hide HasBreak, Continues;
    if s == "" {
    } else if Blank(s[0]) {
      var n := RunLength(s, Blank);
      BlanksKeepBreaks(s[n..]);
      BreakAfter(s, n);
      BreakCons(' ', CollapseBlanks(s[n..]));
    } else {
      BlanksKeepBreaks(s[1..]);
      BlanksContinue(s[1..]);
      BreakOf(s);
      BreakCons(s[0], CollapseBlanks(s[1..]));
    }
  }

  lemma NewlinesBegin(s: string)
    ensures CollapseNewlines(s) == "" <==> s == ""
    ensures s != "" ==> CollapseNewlines(s)[0] == s[0]
    ensures s != "" && (!Newline(s[0]) || RunLength(s, Newline) == 1) ==>
              CollapseNewlines(s) == [s[0]] + CollapseNewlines(s[1..])
    ensures s != "" && Newline(s[0]) && RunLength(s, Newline) > 1 ==>
              |CollapseNewlines(s)| > 1 && CollapseNewlines(s)[1] == s[1] == '\n'
  {
    if s != "" && Newline(s[0]) {
      var n := RunLength(s, Newline);
      if n == 1 {
        assert s[..1] == [s[0]];
      }
    }
  }

  lemma NewlinesContinue(s: string)
    ensures Continues(CollapseNewlines(s)) <==> Continues(s)
  {
    hide CollapseNewlines;
    NewlinesBegin(s);
    if s != "" && s[0] == '-' {
      NewlinesBegin(s[1..]);
      if |s| > 1 && s[1] == '\n' {
        assert s[1..][1..] == s[2..];
        NewlinesBegin(s[2..]);
      }
    }
  }

  lemma {:induction false} NewlinesKeepBreaks(s: string)
    ensures HasBreak(CollapseNewlines(s)) <==> HasBreak(s)
    decreases |s|
  {
    hide HasBreak, Continues;
    if s == "" {
    } else if Newline(s[0]) {
      var n := RunLength(s, Newline);
      var head, rest := if n >= 3 then "\n\n" else s[..n], CollapseNewlines(s[n..]);
      NewlinesKeepBreaks(s[n..]);
      BreakAfter(s, n);
      BreakAfter(head + rest, |head|);
      assert (head + rest)[|head|..] == rest;
    } else {
      NewlinesKeepBreaks(s[1..]);
      NewlinesContinue(s[1..]);
      BreakOf(s);
      BreakCons(s[0], CollapseNewlines(s[1..]));
    }
  }

  lemma {:induction false} StripKeepsBreaks(s: string)
    ensures HasBreak(Strip(s, PySpace)) <==> HasBreak(s)
    decreases |s|
  {
    hide HasBreak;
    if s == "" {
    } else if PySpace(s[0]) {
      StripKeepsBreaks(s[1..]);
      BreakAfter(s, 1);
    } else if PySpace(s[|s| - 1]) {
      StripKeepsBreaks(s[..|s| - 1]);
      BreakBefore(s);
    }
  }

  lemma CollapsingKeepsBreaks(s: string)
    ensures HasBreak(Collapsed(s)) <==> HasBreak(s)
  {
    hide HasBreak, CollapseBlanks, CollapseNewlines, Strip;
    BlanksKeepBreaks(s);
    NewlinesKeepBreaks(CollapseBlanks(s));
    StripKeepsBreaks(CollapseNewlines(CollapseBlanks(s)));
  }

  // ------------------------------------------------------------------- cleaning clean text

  lemma {:induction false} JoiningShrinks(s: string)
    ensures |JoinHyphenated(s)| <= |s|
    ensures HasBreak(s) ==> |JoinHyphenated(s)| < |s|
    ensures !HasBreak(s) ==> JoinHyphenated(s) == s
  {
    if StartsBreak(s) {
      JoiningShrinks(s[4..]);
    } else if s != "" {
      JoiningShrinks(s[1..]);
      BreakOf(s);
    }
  }

  lemma CollapsingShortens(s: string)
    ensures |Collapsed(s)| <= |s|
  {
    CollapseBlanksShortens(s);
    CollapseNewlinesShortens(CollapseBlanks(s));
    StripShortens(CollapseNewlines(CollapseBlanks(s)));
  }

  /** Clean text is cleaned to itself exactly when no broken word is left in it. */
  lemma RecleaningIsIdentity(s: string)
    requires '\r' !in s && SOFT_HYPHEN !in s && Settled(s)
    ensures CleanText(s) == s <==> !HasBreak(s)
  {
    hide Collapsed, HasBreak, Unwrapped, Settled;
    NothingToUnwrap(s);
    JoiningShrinks(s);
    if HasBreak(s) {
      CollapsingShortens(JoinHyphenated(s));
    } else {
      CleaningPlainText(s, s);
    }
  }

  /** The chain, by position. */
  predicate ChainAt(s: string, i: int) {
    && 0 <= i <= |s| - 7
    && AsciiLetter(s[i]) && s[i + 1] == '-' && s[i + 2] == '\n'
    && AsciiLetter(s[i + 3]) && s[i + 4] == '-' && s[i + 5] == '\n'
    && AsciiLetter(s[i + 6])
  }

  lemma ChainHere(s: string)
    ensures StartsChain(s) <==> ChainAt(s, 0)
  {
    if StartsBreak(s) {
      var t := s[4..];
      assert |t| >= 3 ==> t[0] == s[4] && t[1] == s[5] && t[2] == s[6];
    }
  }

  lemma ChainLater(s: string, i: int)
    requires s != ""
    ensures ChainAt(s[1..], i) <==> i >= 0 && ChainAt(s, i + 1)
  {
    var t := s[1..];
    assert forall k :: 0 <= k < |t| ==> t[k] == s[k + 1];
  }

  lemma NoChainBefore(s: string, i: int)
    ensures ChainAt(s, i) ==> i >= 0
  {
  }

  lemma {:induction false} ChainSomewhere(s: string)
    ensures HasChain(s) <==> exists i :: ChainAt(s, i)
  {
    if s != "" {
      ChainSomewhere(s[1..]);
      ChainOf(s);
      hide HasChain, StartsChain, ChainAt;
      ChainHere(s);
      forall i
        ensures ChainAt(s[1..], i) <==> i >= 0 && ChainAt(s, i + 1)
      {
        ChainLater(s, i);
      }
      if i :| ChainAt(s, i) && i != 0 {
        ChainLater(s, i - 1);
        NoChainBefore(s, i);
      }
    } else {
      NoneInNothing();
    }
  }

  /**
   Cleaning twice is cleaning once if and only if the text, newlines normalised
   and soft hyphens removed, has no two broken words that share a letter.
   */
  lemma CleaningIsIdempotentExactly(text: string)
    ensures CleanText(CleanText(text)) == CleanText(text) <==> !exists i :: ChainAt(Unwrapped(text), i)
  {
    var s, once := Unwrapped(text), CleanText(text);
    CleanTextIsNormal(text);
    RecleaningIsIdentity(once);
    CollapsingKeepsBreaks(JoinHyphenated(s));
    JoinLeavesChains(s);
    ChainSomewhere(s);
  }
}
