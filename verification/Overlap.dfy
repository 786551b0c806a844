/**
 When a token is found in a text made of several lines (Python's `token in
 "\n".join(parts)`): tokens hold no newline, so it is found in one of the parts.
 */
module Overlap {
  import opened Text
  import opened Tokenizer

  lemma {:induction false} ContainsIsOccurs(text: string, phrase: string)
    ensures Contains(text, phrase) <==> Occurs(phrase, text)
  {
    if phrase <= text {
      assert OccursAt(phrase, text, 0);
    } else if text != "" {
      ContainsIsOccurs(text[1..], phrase);
      if Occurs(phrase, text[1..]) {
        assert text[1..] == text[1..|text|];
        OccursInside(phrase, text, 1, |text|);
      }
      if Occurs(phrase, text) {
        var k: nat :| OccursAt(phrase, text, k);
        assert k > 0;
        SliceOfTail(text, 1, k, k + |phrase|);
        assert OccursAt(phrase, text[1..], k - 1);
      }
    }
  }

  predicate NoNewline(c: char) { c != '\n' }

  lemma OccurringCharacter(t: string, s: string, k: nat, m: nat)
    requires OccursAt(t, s, k) && k <= m < k + |t|
    ensures t[m - k] == s[m]
  {
    assert s[k..k + |t|][m - k] == s[m];
  }

  lemma OccursAroundBreak(a: string, b: string, t: string)
    requires t != "" && AllOf(t, NoNewline)
    ensures Occurs(t, a + "\n" + b) <==> Occurs(t, a) || Occurs(t, b)
  {
    var s := a + "\n" + b;
    assert s[..|a|] == a && s[0..|a|] == a && s[|a| + 1..|s|] == b && s[|a|] == '\n';
    if Occurs(t, a) {
      OccursInside(t, s, 0, |a|);
    }
    if Occurs(t, b) {
      OccursInside(t, s, |a| + 1, |s|);
    }
    if Occurs(t, s) {
      var k: nat :| OccursAt(t, s, k);
      if k <= |a| < k + |t| {
        OccurringCharacter(t, s, k, |a|);
        assert false;
      } else if k + |t| <= |a| {
        SliceOfPrefix(s, |a|, k, k + |t|);
        assert OccursAt(t, a, k);
      } else {
        SliceOfTail(s, |a| + 1, k, k + |t|);
        assert s[|a| + 1..] == b;
        assert OccursAt(t, b, k - (|a| + 1));
      }
    }
  }

  lemma {:induction false} OccursInJoin(parts: seq<string>, t: string)
    requires t != "" && AllOf(t, NoNewline)
    ensures Occurs(t, Join(parts, "\n")) <==> exists i :: 0 <= i < |parts| && Occurs(t, parts[i])
  {
    if |parts| > 1 {
      OccursInJoin(parts[1..], t);
      OccursAroundBreak(parts[0], Join(parts[1..], "\n"), t);
      hide Join, Occurs;
      assert forall i :: 0 <= i < |parts[1..]| ==> parts[1..][i] == parts[i + 1];
      if i :| 0 <= i < |parts| && Occurs(t, parts[i]) {
        assert i > 0 ==> parts[1..][i - 1] == parts[i];
      }
    }
  }

  lemma TwoMembers<T>(s: set<T>)
    ensures |s| >= 2 <==> exists t, u :: t != u && t in s && u in s
  {
    if |s| >= 2 {
      var t :| t in s;
      assert |s - {t}| >= 1;
      var u :| u in s - {t};
    }
    if t, u :| t != u && t in s && u in s {
      assert {t, u} <= s && |{t, u}| == 2;
      SubsetIsNotLarger({t, u}, s);
    }
  }

  lemma {:induction false} SubsetIsNotLarger<T>(a: set<T>, b: set<T>)
    requires a <= b
    ensures |a| <= |b|
    decreases |a|
  {
    if a != {} {
      var t :| t in a;
      SubsetIsNotLarger(a - {t}, b - {t});
    }
  }

  lemma OneMember<T>(s: set<T>, t: T)
    requires t in s
    ensures |s| == 1 <==> forall u :: u in s ==> u == t
  {
    TwoMembers(s);
    if |s| == 0 {
      assert false;
    }
  }
}
