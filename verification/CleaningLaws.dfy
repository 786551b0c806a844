/**
 Texts that `clean_text` (backend/retriever.py) cannot tell apart: line ends may be
 written in any of three ways, soft hyphens come and go, and runs of blanks or of
 newlines have one length. With the fixed points of cleaning this says what it
 makes of whitespace; the marks are kept by `CleaningKeepsMarks`.
 */
module CleaningLaws {
  import opened Text
  import opened Cleaning

  // ------------------------------------------------------------------- unwrapping, from left to right

  function Crlf(s: string): string { Replace(s, "\r\n", "\n") }
  function Cr(s: string): string { Replace(s, "\r", "\n") }
  function Soft(s: string): string { Replace(s, [SOFT_HYPHEN], "") }

  lemma OtherCharacter(c: char, t: string)
    ensures c != '\r' ==> Crlf([c] + t) == [c] + Crlf(t) && Cr([c] + t) == [c] + Cr(t)
    ensures c != SOFT_HYPHEN ==> Soft([c] + t) == [c] + Soft(t)
    ensures Cr("\r" + t) == "\n" + Cr(t) && Soft([SOFT_HYPHEN] + t) == Soft(t)
  {
    var s := [c] + t;
    assert s[1..] == t && s[0] == c;
    assert ("\r" + t)[1..] == t && ([SOFT_HYPHEN] + t)[1..] == t;
    if c != '\r' {
      assert |s| >= 2 ==> s[..2] != "\r\n" by {
        assert |s| >= 2 ==> s[..2][0] == c;
      }
      if t == "" {
        assert Crlf(s) == s && Crlf(t) == t;
      }
      assert s[..1] == [c];
    }
    if c != SOFT_HYPHEN {
      assert s[..1] == [c];
    }
  }

  lemma LineEnd(t: string)
    ensures Crlf("\r\n" + t) == "\n" + Crlf(t)
    ensures (t == "" || t[0] != '\n') ==> Crlf("\r" + t) == "\r" + Crlf(t)
  {
    var s := "\r\n" + t;
    assert s[..2] == "\r\n" && s[2..] == t;
    if t == "" || t[0] != '\n' {
      var u := "\r" + t;
      assert u[1..] == t && u[0] == '\r';
      if t != "" {
        assert u[..2][1] == t[0];
      }
    }
  }

  /** How unwrapping reads a text. */
  lemma UnwrappedStep(c: char, t: string)
    ensures Unwrapped("") == ""
    ensures Unwrapped("\r\n" + t) == "\n" + Unwrapped(t)
    ensures (t == "" || t[0] != '\n') ==> Unwrapped("\r" + t) == "\n" + Unwrapped(t)
    ensures Unwrapped([SOFT_HYPHEN] + t) == Unwrapped(t)
    ensures c != '\r' && c != SOFT_HYPHEN ==> Unwrapped([c] + t) == [c] + Unwrapped(t)
  {
    assert Unwrapped(t) == Soft(Cr(Crlf(t)));
    LineEnd(t);
    OtherCharacter('\n', Crlf(t));
    OtherCharacter('\n', Cr(Crlf(t)));
    OtherCharacter(SOFT_HYPHEN, t);
    OtherCharacter(SOFT_HYPHEN, Crlf(t));
    OtherCharacter(SOFT_HYPHEN, Cr(Crlf(t)));
    OtherCharacter(c, t);
    OtherCharacter(c, Crlf(t));
    OtherCharacter(c, Cr(Crlf(t)));
  }

  /** `a` does not end with a carriage return, so that what follows it is read by itself. */
  predicate Closed(a: string) {
    a == "" || a[|a| - 1] != '\r'
  }

  predicate ReadsApart(a: string, b: string) {
    Unwrapped(a + b) == Unwrapped(a) + Unwrapped(b)
  }

  lemma ApartBehindLineEnd(t: string, b: string)
    requires ReadsApart(t, b)
    ensures ReadsApart("\r\n" + t, b)
  {
    UnwrappedStep('x', t);
    UnwrappedStep('x', t + b);
    hide Unwrapped;
    assert "\r\n" + t + b == "\r\n" + (t + b);
    assert "\n" + Unwrapped(t) + Unwrapped(b) == "\n" + (Unwrapped(t) + Unwrapped(b));
  }

  lemma ApartBehindReturn(t: string, b: string)
    requires ReadsApart(t, b) && t != "" && t[0] != '\n'
    ensures ReadsApart("\r" + t, b)
  {
    UnwrappedStep('x', t);
    UnwrappedStep('x', t + b);
    hide Unwrapped;
    assert "\r" + t + b == "\r" + (t + b);
    assert "\n" + Unwrapped(t) + Unwrapped(b) == "\n" + (Unwrapped(t) + Unwrapped(b));
  }

  lemma ApartBehindOther(c: char, t: string, b: string)
    requires ReadsApart(t, b) && c != '\r'
    ensures ReadsApart([c] + t, b)
  {
    UnwrappedStep(c, t);
    UnwrappedStep(c, t + b);
    hide Unwrapped;
    assert [c] + t + b == [c] + (t + b);
    assert [c] + Unwrapped(t) + Unwrapped(b) == [c] + (Unwrapped(t) + Unwrapped(b));
  }

  /** Unwrapping reads what stands behind a closed beginning by itself. */
  lemma {:induction false} UnwrappedAppend(a: string, b: string)
    requires Closed(a)
    ensures ReadsApart(a, b)
    decreases |a|
  {
    if a == "" {
      UnwrappedStep('x', "");
      assert a + b == b;
      assert "" + Unwrapped(b) == Unwrapped(b);
    } else {
      hide ReadsApart;
      var c, t := a[0], a[1..];
      assert a == [c] + t;
      if c != '\r' {
        UnwrappedAppend(t, b);
        ApartBehindOther(c, t, b);
      } else if t[0] == '\n' {
        UnwrappedAppend(t[1..], b);
        ApartBehindLineEnd(t[1..], b);
        assert a == "\r\n" + t[1..];
      } else {
        UnwrappedAppend(t, b);
        ApartBehindReturn(t, b);
      }
    }
  }

  // ------------------------------------------------------------------- line ends and soft hyphens

  /** A line end may be written CRLF, CR or LF. */
  lemma LineEndsAreAlike(a: string, b: string)
    requires Closed(a)
    ensures CleanText(a + "\r\n" + b) == CleanText(a + "\n" + b)
    ensures b == "" || b[0] != '\n' ==> CleanText(a + "\r" + b) == CleanText(a + "\n" + b)
  {
    assert a + "\r\n" + b == a + ("\r\n" + b) && a + "\n" + b == a + ("\n" + b) && a + "\r" + b == a + ("\r" + b);
    UnwrappedAppend(a, "\r\n" + b);
    UnwrappedAppend(a, "\n" + b);
    UnwrappedAppend(a, "\r" + b);
    UnwrappedStep('\n', b);
  }

  /** A soft hyphen leaves no trace. */
  lemma SoftHyphensVanish(a: string, b: string)
    requires Closed(a)
    ensures CleanText(a + [SOFT_HYPHEN] + b) == CleanText(a + b)
  {
    assert a + [SOFT_HYPHEN] + b == a + ([SOFT_HYPHEN] + b);
    UnwrappedAppend(a, [SOFT_HYPHEN] + b);
    UnwrappedAppend(a, b);
    UnwrappedStep('x', b);
  }

  // ------------------------------------------------------------------- blanks

  /** A character around which no hyphenated word is joined. */
  predicate Apart(c: char) {
    !AsciiLetter(c) && c != '-' && c != '\n'
  }

  lemma JoinApart(c: char, b: string)
    requires Apart(c)
    ensures JoinHyphenated([c] + b) == [c] + JoinHyphenated(b)
  {
    var s := [c] + b;
    assert s[0] == c && s[1..] == b;
  }

  lemma {:induction false} JoinAround(a: string, c: char, b: string)
    requires Apart(c)
    ensures JoinHyphenated(a + ([c] + b)) == JoinHyphenated(a) + ([c] + JoinHyphenated(b))
    decreases |a|
  {
    var u := [c] + b;
    var s := a + u;
    JoinApart(c, b);
    if a == "" {
      assert s == u;
    } else {
      BreakBeforeApart(a, u);
      if StartsBreak(a) {
        assert s[4..] == a[4..] + u && s[3] == a[3];
        JoinAround(a[4..], c, b);
      } else {
        assert s[1..] == a[1..] + u;
        JoinAround(a[1..], c, b);
      }
    }
  }

  lemma BreakBeforeApart(a: string, u: string)
    requires a != "" && u != "" && Apart(u[0])
    ensures StartsBreak(a + u) <==> StartsBreak(a)
    ensures (a + u)[0] == a[0]
  {
    var s := a + u;
    assert forall i :: 0 <= i < |a| ==> s[i] == a[i];
    assert s[|a|] == u[0];
  }

  lemma BlankStep(c: char, t: string)
    ensures CollapseBlanks([c] + t) ==
            if !Blank(c) then [c] + CollapseBlanks(t)
            else if t != "" && Blank(t[0]) then CollapseBlanks(t)
            else " " + CollapseBlanks(t)
  {
    var s := [c] + t;
    assert s[0] == c && s[1..] == t;
    if Blank(c) {
      var n := RunLength(s, Blank);
      assert n == 1 + RunLength(t, Blank);
      assert s[n..] == t[n - 1..];
      if t == "" || !Blank(t[0]) {
        assert n == 1 && s[1..] == t;
      }
    }
  }

  /** Behind any beginning, what collapses alike stays alike. */
  lemma {:induction false} BlanksBehind(a: string, u: string, v: string)
    requires u != "" && v != "" && Blank(u[0]) && Blank(v[0]) && CollapseBlanks(u) == CollapseBlanks(v)
    ensures CollapseBlanks(a + u) == CollapseBlanks(a + v)
  {
    hide CollapseBlanks;
    if a == "" {
      assert a + u == u && a + v == v;
    } else {
      BlanksBehind(a[1..], u, v);
      BlankAlikeCons(a[0], a[1..], u, v);
      assert a == [a[0]] + a[1..];
    }
  }

  lemma BlankHeads(x: char, y: char, b: string)
    requires Blank(x) && Blank(y)
    ensures CollapseBlanks([x] + ([y] + b)) == CollapseBlanks(" " + b) == CollapseBlanks([x] + b)
  {
    BlankStep(x, [y] + b);
    BlankStep(y, b);
    BlankStep(x, b);
    BlankStep(' ', b);
  }

  lemma BlankAlikeCons(c: char, a: string, u: string, v: string)
    requires u != "" && v != "" && Blank(u[0]) && Blank(v[0]) && CollapseBlanks(a + u) == CollapseBlanks(a + v)
    ensures CollapseBlanks([c] + a + u) == CollapseBlanks([c] + a + v)
  {
    BlankStep(c, a + u);
    BlankStep(c, a + v);
    hide CollapseBlanks;
    assert [c] + a + u == [c] + (a + u) && [c] + a + v == [c] + (a + v);
    assert (a + u)[0] == (if a == "" then u[0] else a[0]) && (a + v)[0] == (if a == "" then v[0] else a[0]);
  }

  /** What becomes of a blank and of what stands around it. */
  lemma CleanedAround(a: string, x: char, b: string)
    requires Closed(a) && Blank(x)
    ensures JoinHyphenated(Unwrapped([x] + b)) == [x] + JoinHyphenated(Unwrapped(b))
    ensures CleanText(a + ([x] + b)) == Collapsed(JoinHyphenated(Unwrapped(a)) + ([x] + JoinHyphenated(Unwrapped(b))))
  {
    UnwrappedAppend(a, [x] + b);
    UnwrappedStep(x, b);
    hide Unwrapped, Collapsed, JoinHyphenated;
    JoinAround(Unwrapped(a), x, Unwrapped(b));
    JoinApart(x, Unwrapped(b));
  }

  lemma CollapsedBehind(a: string, u: string, v: string)
    requires u != "" && v != "" && Blank(u[0]) && Blank(v[0]) && CollapseBlanks(u) == CollapseBlanks(v)
    ensures Collapsed(a + u) == Collapsed(a + v)
  {
    BlanksBehind(a, u, v);
  }

  /** Blanks and tabs are one space, however many stand together: it is neither lost nor doubled. */
  lemma BlanksAreAlike(a: string, x: char, y: char, b: string)
    requires Closed(a) && Blank(x) && Blank(y)
    ensures CleanText(a + ([x] + ([y] + b))) == CleanText(a + ([' '] + b)) == CleanText(a + ([x] + b))
  {
    var before, after := JoinHyphenated(Unwrapped(a)), JoinHyphenated(Unwrapped(b));
    CleanedAround(a, x, [y] + b);
    CleanedAround("", y, b);
    CleanedAround(a, x, b);
    CleanedAround(a, ' ', b);
    BlankHeads(x, y, after);
    hide CleanText, JoinHyphenated, Unwrapped, CollapseBlanks, Collapsed;
    CollapsedBehind(before, [x] + ([y] + after), " " + after);
    CollapsedBehind(before, [x] + after, " " + after);
  }

  // ------------------------------------------------------------------- newlines

  lemma NewlineStep(c: char, t: string)
    ensures CollapseNewlines([c] + t) ==
            if Newline(c) && "\n\n" <= t then CollapseNewlines(t) else [c] + CollapseNewlines(t)
  {
    var s := [c] + t;
    assert s[0] == c && s[1..] == t;
    if Newline(c) {
      var m := RunLength(t, Newline);
      assert RunLength(s, Newline) == 1 + m;
      assert s[1 + m..] == t[m..];
      if m == 0 {
        assert s[..1] == [c];
      } else if m == 1 {
        assert s[..2] == [c] + t[..1];
      } else if m == 2 {
        assert t[..2] == "\n\n";
      } else {
        assert t[..2] == "\n\n";
      }
    }
  }

  predicate Gap(u: string) { "\n\n" <= u }

  lemma GapsKeepTheirPlace(a: string, u: string, v: string)
    requires Gap(u) && Gap(v)
    ensures a != "" ==> (StartsBreak(a + u) <==> StartsBreak(a))
    ensures Gap(a + u) <==> Gap(a + v)
  {
    var s, t := a + u, a + v;
    assert u[..2] == "\n\n" && v[..2] == "\n\n" && u[0] == u[1] == v[0] == v[1] == '\n';
    assert forall i :: 0 <= i < |a| ==> s[i] == a[i] == t[i];
    assert s[|a|] == t[|a|] == s[|a| + 1] == t[|a| + 1] == '\n';
    assert Gap(s) <==> s[0] == '\n' && s[1] == '\n';
    assert Gap(t) <==> t[0] == '\n' && t[1] == '\n';
  }

  lemma {:induction false} JoinBehind(a: string, u: string)
    requires Gap(u)
    ensures JoinHyphenated(a + u) == JoinHyphenated(a) + JoinHyphenated(u)
    decreases |a|
  {
    var s := a + u;
    if a == "" {
      assert s == u;
    } else {
      GapsKeepTheirPlace(a, u, u);
      assert s[0] == a[0];
      if StartsBreak(a) {
        assert s[4..] == a[4..] + u && s[3] == a[3];
        JoinBehind(a[4..], u);
      } else {
        assert s[1..] == a[1..] + u;
        JoinBehind(a[1..], u);
      }
    }
  }

  lemma {:induction false} BlanksAppend(a: string, u: string)
    requires u != "" && !Blank(u[0])
    ensures CollapseBlanks(a + u) == CollapseBlanks(a) + CollapseBlanks(u)
  {
    if a == "" {
      assert a + u == u && CollapseBlanks(a) == "";
    } else {
      hide CollapseBlanks;
      BlanksAppend(a[1..], u);
      BlanksAppendStep(a[0], a[1..], u);
      assert a == [a[0]] + a[1..];
    }
  }

  lemma BlanksAppendStep(c: char, t: string, u: string)
    requires u != "" && !Blank(u[0]) && CollapseBlanks(t + u) == CollapseBlanks(t) + CollapseBlanks(u)
    ensures CollapseBlanks([c] + t + u) == CollapseBlanks([c] + t) + CollapseBlanks(u)
  {
    BlankStep(c, t);
    BlankStep(c, t + u);
    hide CollapseBlanks;
    assert [c] + t + u == [c] + (t + u);
    assert (t + u)[0] == if t == "" then u[0] else t[0];
    var x, y := CollapseBlanks(t), CollapseBlanks(u);
    assert [c] + x + y == [c] + (x + y) && " " + x + y == " " + (x + y);
  }

  lemma {:induction false} NewlinesBehind(a: string, u: string, v: string)
    requires Gap(u) && Gap(v) && CollapseNewlines(u) == CollapseNewlines(v)
    ensures CollapseNewlines(a + u) == CollapseNewlines(a + v)
  {
    if a == "" {
      assert a + u == u && a + v == v;
    } else {
      var c, t := a[0], a[1..];
      assert a + u == [c] + (t + u) && a + v == [c] + (t + v);
      NewlinesBehind(t, u, v);
      NewlineStep(c, t + u);
      NewlineStep(c, t + v);
      GapsKeepTheirPlace(t, u, v);
    }
  }

  lemma NewlineFirst(t: string)
    ensures Unwrapped("\n" + t) == "\n" + Unwrapped(t)
    ensures JoinHyphenated("\n" + t) == "\n" + JoinHyphenated(t)
    ensures CollapseBlanks("\n" + t) == "\n" + CollapseBlanks(t)
  {
    UnwrappedStep('\n', t);
    BlankStep('\n', t);
    assert ("\n" + t)[0] == '\n' && ("\n" + t)[1..] == t;
  }

  /** A gap and what stands behind it, with everything done but collapsing the newlines. */
  lemma GapInside(a: string, u: string) returns (before: string)
    requires Closed(a) && Gap(u) && Gap(Unwrapped(u)) && Gap(JoinHyphenated(Unwrapped(u)))
    ensures before == CollapseBlanks(JoinHyphenated(Unwrapped(a)))
    ensures CollapseBlanks(JoinHyphenated(Unwrapped(a + u)))
            == before + CollapseBlanks(JoinHyphenated(Unwrapped(u)))
  {
    UnwrappedAppend(a, u);
    before := CollapseBlanks(JoinHyphenated(Unwrapped(a)));
    JoinBehind(Unwrapped(a), Unwrapped(u));
    var joined := JoinHyphenated(Unwrapped(u));
    assert joined[..2] == "\n\n" && joined[0] == '\n';
    BlanksAppend(JoinHyphenated(Unwrapped(a)), joined);
  }

  lemma GapFirst(t: string)
    ensures var u := "\n" + ("\n" + t);
            && Unwrapped(u) == "\n" + ("\n" + Unwrapped(t))
            && JoinHyphenated(Unwrapped(u)) == "\n" + ("\n" + JoinHyphenated(Unwrapped(t)))
            && CollapseBlanks(JoinHyphenated(Unwrapped(u)))
               == "\n" + ("\n" + CollapseBlanks(JoinHyphenated(Unwrapped(t))))
  {
    NewlineFirst(t);
    NewlineFirst("\n" + t);
    NewlineFirst(Unwrapped(t));
    NewlineFirst("\n" + Unwrapped(t));
    NewlineFirst(JoinHyphenated(Unwrapped(t)));
    NewlineFirst("\n" + JoinHyphenated(Unwrapped(t)));
  }

  /** Three newlines are two, so an empty line is neither lost nor doubled. */
  lemma GapsAreAlike(a: string, b: string)
    requires Closed(a)
    ensures CleanText(a + ("\n" + ("\n" + ("\n" + b)))) == CleanText(a + ("\n" + ("\n" + b)))
  {
    var u, v := "\n" + ("\n" + ("\n" + b)), "\n" + ("\n" + b);
    GapFirst(b);
    GapFirst("\n" + b);
    NewlineFirst(b);
    NewlineFirst(Unwrapped(b));
    NewlineFirst(JoinHyphenated(Unwrapped(b)));
    hide Unwrapped, JoinHyphenated, CollapseBlanks;
    var before := GapInside(a, u);
    var _ := GapInside(a, v);
    var rest := CollapseBlanks(JoinHyphenated(Unwrapped(b)));
    NewlineStep('\n', "\n" + ("\n" + rest));
    NewlinesBehind(before, "\n" + ("\n" + ("\n" + rest)), "\n" + ("\n" + rest));
  }
}
