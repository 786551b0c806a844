/**
 What the overview results are, in terms of the fields of the chunks alone
 (backend/retriever.py `_overview_results`, `_overview_score`).
 */
module OverviewMeaning {
  import opened Text
  import opened Sequences
  import opened Ranking
  import opened DocumentIndex
  import opened Tokenizer
  import opened Overlap
  import opened Retrieval
  import opened SearchMeaning

  // ------------------------------------------------------------------- the score

  /** One of the phrases occurs in the lowered text that a result would show. */
  ghost predicate Speaks(c: Chunk, phrases: seq<string>, low: Lowering) {
    exists k :: 0 <= k < |phrases|
                && Occurs(phrases[k], Lower(if c.body.passage.parentContent == "" then c.body.passage.content
                                            else c.body.passage.parentContent, low))
  }

  lemma SpeaksOrNot(c: Chunk, phrases: seq<string>, low: Lowering)
    ensures Speaks(c, phrases, low) <==> ContainsAny(Lower(ResultText(c), low), phrases)
  {
    var text := Lower(ResultText(c), low);
    if k :| 0 <= k < |phrases| && Occurs(phrases[k], text) {
      ContainsIsOccurs(text, phrases[k]);
    }
    if k :| 0 <= k < |phrases| && Contains(text, phrases[k]) {
      ContainsIsOccurs(text, phrases[k]);
    }
  }

  ghost function Bonus(earned: bool, points: real): real {
    if earned then points else 0.0
  }

  /**
   What raises the score above 1: standing on one of the first two pages, being in
   the first parent of a page, and speaking of an abstract, of the introduction
   (or background, or related work), or of conclusions.
   */
  lemma OverviewScoreExactly(c: Chunk, low: Lowering)
    ensures OverviewScore(c, low)
            == 1.0 + Bonus(c.body.passage.page < 3, 3.0) + Bonus(c.body.passage.parentIndex == 0, 2.0)
               + Bonus(Speaks(c, ["abstract", "a b s t r a c t", "摘要"], low), 4.0)
               + Bonus(Speaks(c, ["introduction", "related work", "引言", "背景"], low), 2.0)
               + Bonus(Speaks(c, ["conclusion", "conclusions", "结论", "summary"], low), 3.0)
  {
    SpeaksOrNot(c, ["abstract", "a b s t r a c t", "摘要"], low);
    SpeaksOrNot(c, ["introduction", "related work", "引言", "背景"], low);
    SpeaksOrNot(c, ["conclusion", "conclusions", "结论", "summary"], low);
  }

  // ------------------------------------------------------------------- the list

  /** No earlier chunk has the same parent. */
  ghost predicate FirstOfParent(chunks: seq<Chunk>, i: int) {
    0 <= i < |chunks| && forall j :: 0 <= j < i ==> !SameParent(chunks[j], chunks[i])
  }

  ghost function Firsts(chunks: seq<Chunk>): set<nat> {
    set i: nat | i < |chunks| && FirstOfParent(chunks, i)
  }

  lemma FirstsSnoc(chunks: seq<Chunk>)
    requires chunks != []
    ensures var n := |chunks| - 1;
            Firsts(chunks) == Firsts(chunks[..n]) + if FirstOfParent(chunks, n) then {n} else {}
  {
    var n := |chunks| - 1;
    var init := chunks[..n];
    forall i: nat
      ensures i < n ==> (FirstOfParent(chunks, i) <==> FirstOfParent(init, i))
    {
      assert forall j :: 0 <= j < n ==> init[j] == chunks[j];
    }
  }

  predicate KeyIn(chunks: seq<Chunk>, key: string) {
    exists i :: 0 <= i < |chunks| && ParentKey(chunks[i]) == key
  }

  lemma KeyInSnoc(chunks: seq<Chunk>, last: Chunk, key: string)
    ensures KeyIn(chunks + [last], key) <==> KeyIn(chunks, key) || ParentKey(last) == key
  {
    var longer := chunks + [last];
    assert longer[|chunks|] == last && forall i :: 0 <= i < |chunks| ==> longer[i] == chunks[i];
  }

  lemma FirstChunksSnoc(chunks: seq<Chunk>, last: Chunk)
    ensures FirstChunks(chunks + [last])
            == if KeyIn(FirstChunks(chunks), ParentKey(last)) then FirstChunks(chunks) else FirstChunks(chunks) + [last]
  {
    assert (chunks + [last])[..|chunks|] == chunks;
  }

  lemma {:induction false} ParentSeen(chunks: seq<Chunk>, key: string)
    ensures KeyIn(FirstChunks(chunks), key) <==> KeyIn(chunks, key)
  {
    if chunks != [] {
      var init, last := chunks[..|chunks| - 1], chunks[|chunks| - 1];
      assert chunks == init + [last];
      ParentSeen(init, key);
      FirstChunksSnoc(init, last);
      KeyInSnoc(init, last, key);
      KeyInSnoc(FirstChunks(init), last, key);
    }
  }

  ghost predicate IsFirst(chunks: seq<Chunk>, c: Chunk) {
    exists i :: FirstOfParent(chunks, i) && chunks[i] == c
  }

  lemma FirstOfParentSnoc(chunks: seq<Chunk>, last: Chunk, i: int)
    ensures FirstOfParent(chunks + [last], i)
            <==> FirstOfParent(chunks, i) || (i == |chunks| && !KeyIn(chunks, ParentKey(last)))
  {
    var longer := chunks + [last];
    assert longer[|chunks|] == last && forall j :: 0 <= j < |chunks| ==> longer[j] == chunks[j];
    if i == |chunks| && !FirstOfParent(longer, i) {
      var j :| 0 <= j < i && SameParent(longer[j], longer[i]);
      assert ParentKey(chunks[j]) == ParentKey(last);
    }
    if i == |chunks| && KeyIn(chunks, ParentKey(last)) {
      var j :| 0 <= j < |chunks| && ParentKey(chunks[j]) == ParentKey(last);
      assert SameParent(longer[j], longer[i]);
    }
  }

  lemma IsFirstSnoc(chunks: seq<Chunk>, last: Chunk, c: Chunk)
    ensures IsFirst(chunks + [last], c)
            <==> IsFirst(chunks, c) || (c == last && !KeyIn(chunks, ParentKey(last)))
  {
    hide KeyIn;
    var longer := chunks + [last];
    if i :| FirstOfParent(longer, i) && longer[i] == c {
      FirstOfParentSnoc(chunks, last, i);
    }
    if i :| FirstOfParent(chunks, i) && chunks[i] == c {
      FirstOfParentSnoc(chunks, last, i);
      assert FirstOfParent(longer, i) && longer[i] == c;
    }
    if c == last && !KeyIn(chunks, ParentKey(last)) {
      FirstOfParentSnoc(chunks, last, |chunks|);
      assert longer[|chunks|] == c;
    }
  }

  /** The chunks considered are the first of each parent. */
  lemma {:induction false} FirstChunksExactly(chunks: seq<Chunk>, c: Chunk)
    ensures c in FirstChunks(chunks) <==> IsFirst(chunks, c)
    ensures |FirstChunks(chunks)| == |Firsts(chunks)|
  {
    if chunks != [] {
      var n := |chunks| - 1;
      var init, last := chunks[..n], chunks[n];
      assert chunks == init + [last];
      FirstChunksExactly(init, c);
      ParentSeen(init, ParentKey(last));
      FirstChunksSnoc(init, last);
      IsFirstSnoc(init, last, c);
      FirstsSnoc(chunks);
      FirstOfParentSnoc(init, last, n);
    }
  }

  /** The result shows the parent of chunk `i`, with its overview score. */
  ghost predicate Introduces(r: SearchResult, chunks: seq<Chunk>, i: int, low: Lowering) {
    && FirstOfParent(chunks, i) && Shows(r, chunks[i])
    && r.score == r.retrievalScore == Round4(OverviewScore(chunks[i], low))
  }

  ghost predicate Introduced(results: seq<SearchResult>, chunks: seq<Chunk>, i: int, topK: nat, low: Lowering)
    requires 0 <= i < |chunks|
  {
    || (exists r :: r in results && Introduces(r, chunks, i, low))
    || (|results| == topK && forall r :: r in results ==> r.score >= Round4(OverviewScore(chunks[i], low)))
  }

  lemma OrderOrigin(chunks: seq<Chunk>, low: Lowering, k: nat) returns (i: int)
    requires k < |OverviewOrder(chunks, low)|
    ensures FirstOfParent(chunks, i) && chunks[i] == OverviewOrder(chunks, low)[k]
  {
    var c := OverviewOrder(chunks, low)[k];
    SortMembers(FirstChunks(chunks), Scoring(low), c);
    FirstChunksExactly(chunks, c);
    i :| FirstOfParent(chunks, i) && chunks[i] == c;
  }

  lemma OrderHas(chunks: seq<Chunk>, low: Lowering, i: int) returns (k: nat)
    requires FirstOfParent(chunks, i)
    ensures k < |OverviewOrder(chunks, low)| && OverviewOrder(chunks, low)[k] == chunks[i]
  {
    SortMembers(FirstChunks(chunks), Scoring(low), chunks[i]);
    FirstChunksExactly(chunks, chunks[i]);
    k :| k < |OverviewOrder(chunks, low)| && OverviewOrder(chunks, low)[k] == chunks[i];
  }

  lemma OrderDescends(chunks: seq<Chunk>, low: Lowering)
    ensures |OverviewOrder(chunks, low)| == |Firsts(chunks)|
    ensures Descending(OverviewOrder(chunks, low), Scoring(low))
  {
    SortsStably(FirstChunks(chunks), Scoring(low));
    if chunks != [] {
      FirstChunksExactly(chunks, chunks[0]);
    }
  }

  lemma OrderFalls(chunks: seq<Chunk>, low: Lowering, p: nat, q: nat)
    requires p < q < |OverviewOrder(chunks, low)|
    ensures var scored := OverviewOrder(chunks, low);
            && ResultOf(scored[p], OverviewScore(scored[p], low)).score
               >= ResultOf(scored[q], OverviewScore(scored[q], low)).score
            && ResultOf(scored[q], OverviewScore(scored[q], low)).score == Round4(OverviewScore(scored[q], low))
  {
    OrderDescends(chunks, low);
    var scored := OverviewOrder(chunks, low);
    assert Scoring(low)(scored[p]) >= Scoring(low)(scored[q]);
    RoundingIsMonotone(OverviewScore(scored[q], low), OverviewScore(scored[p], low));
  }

  lemma IntroducesFirst(chunks: seq<Chunk>, i: int, low: Lowering)
    requires FirstOfParent(chunks, i)
    ensures Introduces(ResultOf(chunks[i], OverviewScore(chunks[i], low)), chunks, i, low)
  {
  }

  /**
   The overview results: as many parents as there are, at most `top_k`; each shown
   by its first chunk and scored by it, in descending order; and a parent is
   missing only if the list is full of parents that score no less.
   */
  lemma OverviewMeans(chunks: seq<Chunk>, topK: nat, low: Lowering)
    ensures var results := OverviewResults(chunks, topK, low);
            && |results| == Min(topK, |Firsts(chunks)|)
            && (forall r :: r in results ==> exists i :: Introduces(r, chunks, i, low))
            && (forall p, q :: 0 <= p < q < |results| ==> results[p].score >= results[q].score)
            && forall i :: FirstOfParent(chunks, i) ==> Introduced(results, chunks, i, topK, low)
  {
    var results := OverviewResults(chunks, topK, low);
    var scored := OverviewOrder(chunks, low);
    assert forall k :: 0 <= k < |results| ==> results[k] == ResultOf(scored[k], OverviewScore(scored[k], low));
    OrderDescends(chunks, low);
    hide OverviewOrder, OverviewScore, OverviewResults, FirstOfParent, ResultOf;
    forall r | r in results
      ensures exists i :: Introduces(r, chunks, i, low)
    {
      var k :| 0 <= k < |results| && results[k] == r;
      var i := OrderOrigin(chunks, low, k);
      IntroducesFirst(chunks, i, low);
    }
    forall p, q | 0 <= p < q < |results|
      ensures results[p].score >= results[q].score
    {
      OrderFalls(chunks, low, p, q);
    }
    forall i | FirstOfParent(chunks, i)
      ensures Introduced(results, chunks, i, topK, low)
    {
      var k := OrderHas(chunks, low, i);
      IntroducesFirst(chunks, i, low);
      if k < |results| {
        assert results[k] in results;
      } else {
        forall r | r in results
          ensures r.score >= Round4(OverviewScore(chunks[i], low))
        {
          var p :| 0 <= p < |results| && results[p] == r;
          OrderFalls(chunks, low, p, k);
        }
      }
    }
  }
}
