/**
 Characters and stripping, as Python's `str.strip` and Go's `strings.TrimSpace` see them.
 */
module Text {

  /** The characters that Python's argument-less `str.strip` removes. */
  predicate PySpace(c: char) {
    || '\t' <= c <= '\r'
    || '\U{001C}' <= c <= ' '
    || c == '\U{0085}' || c == '\U{00A0}' || c == '\U{1680}'
    || '\U{2000}' <= c <= '\U{200A}'
    || c == '\U{2028}' || c == '\U{2029}' || c == '\U{202F}' || c == '\U{205F}' || c == '\U{3000}'
  }

  /** The characters that Go's `strings.TrimSpace` removes: no information separators. */
  predicate GoSpace(c: char) {
    PySpace(c) && !('\U{001C}' <= c < ' ')
  }

  /** Python's `phrase in text`. */
  predicate Contains(text: string, phrase: string) {
    phrase <= text || (text != "" && Contains(text[1..], phrase))
  }

  /** Removes leading and trailing characters that satisfy `ws`. */
  function Strip(s: string, ws: char -> bool): (r: string)
    ensures |r| <= |s|
    ensures r != "" ==> !ws(r[0]) && !ws(r[|r| - 1])
    decreases |s|
  {
    if s == "" then ""
    else if ws(s[0]) then Strip(s[1..], ws)
    else if ws(s[|s| - 1]) then Strip(s[..|s| - 1], ws)
    else s
  }

  lemma TailOfSlice<T>(s: seq<T>, k: nat, a: nat, b: nat)
    requires k <= |s| && a <= b <= |s| - k
    ensures s[k..][a..b] == s[k + a..k + b]
  {
  }

  lemma HeadOfSlice<T>(s: seq<T>, n: nat, a: nat, b: nat)
    requires a <= b <= n <= |s|
    ensures s[..n][a..b] == s[a..b]
  {
  }

  /** Stripping returns a slice, and everything outside the slice was strippable. */
  lemma {:induction false} StripIsSlice(s: string, ws: char -> bool) returns (a: nat, b: nat)
    ensures a <= b <= |s| && Strip(s, ws) == s[a..b]
    ensures forall i :: 0 <= i < a || b <= i < |s| ==> ws(s[i])
    decreases |s|, 1
  {
    if s == "" {
      a, b := 0, 0;
    } else if ws(s[0]) {
      a, b := StripTail(s, ws);
    } else if ws(s[|s| - 1]) {
      var t := s[..|s| - 1];
      assert Strip(s, ws) == Strip(t, ws);
      hide Strip;
      a, b := StripIsSlice(t, ws);
      HeadOfSlice(s, |s| - 1, a, b);
      assert forall i :: 0 <= i < |t| ==> s[i] == t[i];
    } else {
      a, b := 0, |s|;
    }
  }

  lemma {:induction false} StripTail(s: string, ws: char -> bool) returns (a: nat, b: nat)
    requires s != "" && ws(s[0])
    ensures a <= b <= |s| && Strip(s, ws) == s[a..b]
    ensures forall i :: 0 <= i < a || b <= i < |s| ==> ws(s[i])
    decreases |s|, 0
  {
    var t := s[1..];
    assert Strip(s, ws) == Strip(t, ws);
    hide Strip;
    var a', b' := StripIsSlice(t, ws);
    a, b := a' + 1, b' + 1;
    TailOfSlice(s, 1, a', b');
    assert forall i :: 1 <= i < |s| ==> s[i] == t[i - 1];
  }

  /** Stripping removes whatever whitespace stands around a text that neither starts nor ends with it. */
  lemma {:induction false} StripAround(lead: string, s: string, trail: string, ws: char -> bool)
    requires (forall i :: 0 <= i < |lead| ==> ws(lead[i])) && (forall i :: 0 <= i < |trail| ==> ws(trail[i]))
    requires s != "" && !ws(s[0]) && !ws(s[|s| - 1])
    ensures Strip(lead + s + trail, ws) == s
    decreases |lead| + |trail|
  {
    var t := lead + s + trail;
    hide Strip;
    if lead != "" {
      StripAround(lead[1..], s, trail, ws);
      StripFirst(lead[0], lead[1..] + s + trail, ws);
      assert t == [lead[0]] + (lead[1..] + s + trail);
    } else if trail != "" {
      StripAround(lead, s, trail[..|trail| - 1], ws);
      StripLast(lead + s + trail[..|trail| - 1], trail[|trail| - 1], ws);
      assert t == lead + s + trail[..|trail| - 1] + [trail[|trail| - 1]];
    } else {
      assert t == s;
      StripNothing(s, ws);
    }
  }

  lemma StripNothing(s: string, ws: char -> bool)
    requires s != "" && !ws(s[0]) && !ws(s[|s| - 1])
    ensures Strip(s, ws) == s
  {
  }

  lemma StripFirst(c: char, t: string, ws: char -> bool)
    requires ws(c)
    ensures Strip([c] + t, ws) == Strip(t, ws)
  {
    assert ([c] + t)[1..] == t;
  }

  lemma StripLast(t: string, c: char, ws: char -> bool)
    requires t != "" && !ws(t[0]) && ws(c)
    ensures Strip(t + [c], ws) == Strip(t, ws)
  {
    assert (t + [c])[..|t|] == t;
  }

  /** The length of the longest prefix whose characters satisfy `p`. */
  function RunLength(s: string, p: char -> bool): (n: nat)
    ensures n <= |s| && (forall i :: 0 <= i < n ==> p(s[i])) && (n < |s| ==> !p(s[n]))
  {
    if s == "" || !p(s[0]) then 0 else
      var n := RunLength(s[1..], p);
      assert forall i :: 1 <= i < n + 1 ==> s[i] == s[1..][i - 1];
      n + 1
  }

  /** The concatenation of a list of strings. */
  function Concat(parts: seq<string>): string {
    if parts == [] then "" else parts[0] + Concat(parts[1..])
  }

  lemma ConcatCons(part: string, parts: seq<string>)
    ensures Concat([part] + parts) == part + Concat(parts)
  {
    assert ([part] + parts)[1..] == parts;
  }

  lemma {:induction false} ConcatAppend(a: seq<string>, b: seq<string>)
    ensures Concat(a + b) == Concat(a) + Concat(b)
  {
    if a == [] {
      assert a + b == b;
    } else {
      ConcatAppend(a[1..], b);
      var t := a + b;
      assert t[0] == a[0];
      assert t[1..] == a[1..] + b;
      assert Concat(t) == t[0] + Concat(t[1..]);
    }
  }

  /** Python's `sep.join(parts)`. */
  function Join(parts: seq<string>, sep: string): string {
    if parts == [] then ""
    else if |parts| == 1 then parts[0]
    else parts[0] + sep + Join(parts[1..], sep)
  }

  lemma {:induction false} JoinAppend(a: seq<string>, b: seq<string>, sep: string)
    ensures a != [] && b != [] ==> Join(a + b, sep) == Join(a, sep) + sep + Join(b, sep)
    ensures b == [] ==> Join(a + b, sep) == Join(a, sep)
    ensures a == [] ==> Join(a + b, sep) == Join(b, sep)
  {
    if a == [] {
      assert a + b == b;
    } else if b == [] {
      assert a + b == a;
    } else if |a| == 1 {
      assert (a + b)[1..] == b;
    } else {
      JoinAppend(a[1..], b, sep);
      assert (a + b)[1..] == a[1..] + b;
    }
  }

  /** The characters of `s` that satisfy `keep`, in order. */
  function Filter(s: string, keep: char -> bool): string {
    if s == "" then ""
    else if keep(s[0]) then [s[0]] + Filter(s[1..], keep)
    else Filter(s[1..], keep)
  }

  lemma {:induction false} FilterAppend(a: string, b: string, keep: char -> bool)
    ensures Filter(a + b, keep) == Filter(a, keep) + Filter(b, keep)
  {
    if a == "" {
      assert a + b == b;
    } else {
      FilterAppend(a[1..], b, keep);
      var t := a + b;
      assert t[0] == a[0];
      assert t[1..] == a[1..] + b;
      assert Filter(t, keep) == if keep(t[0]) then [t[0]] + Filter(t[1..], keep) else Filter(t[1..], keep);
    }
  }

  /** Filtering twice is filtering by the narrower predicate. */
  lemma {:induction false} FilterTwice(s: string, wide: char -> bool, narrow: char -> bool)
    requires forall c :: narrow(c) ==> wide(c)
    ensures Filter(Filter(s, wide), narrow) == Filter(s, narrow)
  {
    if s != "" {
      FilterTwice(s[1..], wide, narrow);
      assert ([s[0]] + Filter(s[1..], wide))[1..] == Filter(s[1..], wide);
    }
  }

  lemma {:induction false} FilterNone(s: string, keep: char -> bool)
    requires forall i :: 0 <= i < |s| ==> !keep(s[i])
    ensures Filter(s, keep) == ""
  {
    if s != "" {
      FilterNone(s[1..], keep);
    }
  }

  lemma {:induction false} FilterEmpty(s: string, keep: char -> bool)
    requires Filter(s, keep) == ""
    ensures forall i :: 0 <= i < |s| ==> !keep(s[i])
  {
    if s != "" {
      FilterEmpty(s[1..], keep);
      assert forall i :: 1 <= i < |s| ==> s[i] == s[1..][i - 1];
    }
  }
}
