/**
 The optional reranker (backend/retriever.py `RerankerBackend`): it asks one
 model after another, and whatever comes back, it only reorders and rescores
 what it was given. What the models answer is an arbitrary input.
 */
module Reranking {
  import opened Options
  import opened Sequences
  import opened Retrieval

  /** A JSON number that may be missing or null. */
  datatype Field = Absent | Null | Number(value: real)

  /** One entry of a reply: an index of its own or inside its document, and three names for the score. */
  datatype Item = Item(index: Option<int>, nested: Option<int>, relevance: Field, score: Field, rank: Field)

  /** The body of an answer: a list of entries, or something that raises while it is read. */
  datatype Reply = Unreadable | Items(items: seq<Item>)

  /** What asking a model leads to: an exception, or a status and a body. */
  datatype Response = Unreachable | Status(code: int, reply: Reply)

  /** The reply that is used: only a refused request makes the next model be asked. */
  function Answer(responses: seq<Response>): Option<Reply> {
    if responses == [] || responses[0].Unreachable? then None
    else if responses[0].code < 400 then Some(responses[0].reply)
    else if responses[0].code == 401 || responses[0].code == 403 then None
    else Answer(responses[1..])
  }

  function IndexOf(item: Item): Option<int> {
    if item.index.Some? then item.index else item.nested
  }

  predicate Points(item: Item, n: nat) {
    IndexOf(item).Some? && 0 <= IndexOf(item).value < n
  }

  /** The first score that is present, even if it is null. */
  function ScoreOf(item: Item): Field {
    if item.relevance != Absent then item.relevance
    else if item.score != Absent then item.score
    else item.rank
  }

  function Rescored(item: Item, results: seq<SearchResult>): SearchResult
    requires Points(item, |results|)
  {
    var r := results[IndexOf(item).value];
    r.(score := if ScoreOf(item).Number? then Round4(ScoreOf(item).value) else r.score)
  }

  /** The entries that point to a result, rescored, in the order of the reply. */
  function Ranked(items: seq<Item>, results: seq<SearchResult>): seq<SearchResult> {
    if items == [] then []
    else (if Points(items[0], |results|) then [Rescored(items[0], results)] else []) + Ranked(items[1..], results)
  }

  function Reranked(enabled: bool, responses: seq<Response>, results: seq<SearchResult>, topK: nat): seq<SearchResult> {
    if !enabled || results == [] then Take(results, topK)
    else match Answer(responses)
      case Some(Items(items)) => Take(if Ranked(items, results) == [] then results else Ranked(items, results), topK)
      case _ => Take(results, topK)
  }

  /** The loop of `_rerank_api` over the candidate models. */
  method AskModels(responses: seq<Response>) returns (reply: Option<Reply>)
    ensures reply == Answer(responses)
  {
    for i := 0 to |responses|
      invariant Answer(responses) == Answer(responses[i..])
    {
      assert responses[i..][1..] == responses[i + 1..];
      var response := responses[i];
      if response.Unreachable? {
        return None;
      }
      if response.code < 400 {
        return Some(response.reply);
      }
      if response.code == 401 || response.code == 403 {
        return None;
      }
    }
    return None;
  }

  /** The loop of `_rerank_api` over the entries of a reply. */
  method RankItems(items: seq<Item>, results: seq<SearchResult>) returns (ranked: seq<SearchResult>)
    ensures ranked == Ranked(items, results)
  {
    ranked := [];
    for i := 0 to |items|
      invariant Ranked(items, results) == ranked + Ranked(items[i..], results)
    {
      assert items[i..][1..] == items[i + 1..];
      if Points(items[i], |results|) {
        ranked := ranked + [Rescored(items[i], results)];
      }
    }
  }

  /** `rerank`. */
  method Rerank(enabled: bool, responses: seq<Response>, results: seq<SearchResult>, topK: nat)
    returns (final: seq<SearchResult>)
    ensures final == Reranked(enabled, responses, results, topK)
  {
    if !enabled || |results| == 0 {
      return Take(results, topK);
    }
    var reply := AskModels(responses);
    if reply.None? || reply.value.Unreadable? {
      return Take(results, topK);
    }
    var ranked := RankItems(reply.value.items, results);
    return Take(if |ranked| == 0 then results else ranked, topK);
  }

  // ------------------------------------------------------------------- which answer counts

  /** A response after which the next model is asked: a refusal other than for lack of authority. */
  predicate AsksOn(r: Response) {
    r.Status? && r.code >= 400 && r.code != 401 && r.code != 403
  }

  ghost predicate FirstAccepted(responses: seq<Response>, i: nat) {
    && i < |responses| && responses[i].Status? && responses[i].code < 400
    && forall j :: 0 <= j < i ==> AsksOn(responses[j])
  }

  /**
   A reply is used exactly if it is that of an accepted answer which only models
   with other refusals come before; there is at most one such answer.
   */
  lemma {:induction false} AnswerIsFirstAccepted(responses: seq<Response>, reply: Reply)
    ensures Answer(responses) == Some(reply)
            <==> exists i: nat :: FirstAccepted(responses, i) && responses[i].reply == reply
    ensures forall i: nat, j: nat :: FirstAccepted(responses, i) && FirstAccepted(responses, j) ==> i == j
  {
    if responses != [] {
      var rest := responses[1..];
      AnswerIsFirstAccepted(rest, reply);
      forall i: nat
        ensures FirstAccepted(responses, i) <==>
                if i == 0 then responses[0].Status? && responses[0].code < 400
                else AsksOn(responses[0]) && FirstAccepted(rest, i - 1)
      {
        assert forall j :: 0 <= j < |rest| ==> rest[j] == responses[j + 1];
        if i > 0 && FirstAccepted(responses, i) {
          assert AsksOn(responses[0]);
        }
      }
      if AsksOn(responses[0]) {
        if i: nat :| FirstAccepted(rest, i) && rest[i].reply == reply {
          assert FirstAccepted(responses, i + 1) && responses[i + 1].reply == reply;
        }
      } else if responses[0].Status? && responses[0].code < 400 {
        assert FirstAccepted(responses, 0);
      }
    }
  }

  // ------------------------------------------------------------------- what a reply means

  /** Increasing positions of exactly the entries whose index, their own or else that of their document, is in range. */
  ghost predicate Pointing(at: seq<nat>, items: seq<Item>, n: nat) {
    && Increasing(at)
    && forall p: nat :: p in at <==>
         && p < |items|
         && if items[p].index.Some? then 0 <= items[p].index.value < n
            else items[p].nested.Some? && 0 <= items[p].nested.value < n
  }

  lemma PointingSnoc(at: seq<nat>, items: seq<Item>, item: Item, n: nat)
    requires Pointing(at, items, n)
    ensures Pointing(if Points(item, n) then at + [|items|] else at, items + [item], n)
  {
    var longer := if Points(item, n) then at + [|items|] else at;
    forall p: nat
      ensures p in longer <==> p < |items| + 1 && Points((items + [item])[p], n)
    {
      assert p in longer <==> p in at || (p == |items| && Points(item, n));
    }
    assert forall k :: 0 <= k < |at| ==> at[k] in at;
  }

  /** The results that the entries of a reply point to, by index. */
  function Targets(items: seq<Item>, n: nat): (targets: seq<nat>)
    ensures forall k :: 0 <= k < |targets| ==> targets[k] < n
  {
    if items == [] then []
    else (if Points(items[0], n) then [IndexOf(items[0]).value] else []) + Targets(items[1..], n)
  }

  /** The score an entry gives: the first of its three fields that is present decides; null leaves the result's own. */
  predicate Scores(item: Item, own: real, score: real) {
    match item
    case Item(_, _, Number(v), _, _) => score == Round4(v)
    case Item(_, _, Null, _, _) => score == own
    case Item(_, _, Absent, Number(v), _) => score == Round4(v)
    case Item(_, _, Absent, Null, _) => score == own
    case Item(_, _, Absent, Absent, Number(v)) => score == Round4(v)
    case _ => score == own
  }

  /** What an entry stands for: the result at its own index, or at that inside its document, with the score it gives. */
  predicate StandsFor(r: SearchResult, target: nat, item: Item, results: seq<SearchResult>) {
    && (item.index == Some(target) || (item.index.None? && item.nested == Some(target)))
    && target < |results|
    && r == results[target].(score := r.score)
    && Scores(item, results[target].score, r.score)
  }

  /** Results and targets, in the order of the entries at the given positions. */
  predicate Matches(ranked: seq<SearchResult>, targets: seq<nat>, at: seq<nat>, items: seq<Item>,
                    results: seq<SearchResult>)
  {
    && |ranked| == |targets| == |at|
    && forall k :: 0 <= k < |at| ==> at[k] < |items| && StandsFor(ranked[k], targets[k], items[at[k]], results)
  }

  lemma MatchesSnoc(ranked: seq<SearchResult>, targets: seq<nat>, at: seq<nat>, items: seq<Item>, item: Item,
                    results: seq<SearchResult>)
    requires Matches(ranked, targets, at, items, results)
    ensures Matches(ranked, targets, at, items + [item], results)
    ensures Points(item, |results|) ==>
              Matches(ranked + [Rescored(item, results)], targets + [IndexOf(item).value], at + [|items|],
                      items + [item], results)
  {
    var more := items + [item];
    assert forall p :: 0 <= p < |items| ==> more[p] == items[p];
    assert more[|items|] == item;
  }

  lemma {:induction false} RankedSnoc(items: seq<Item>, item: Item, results: seq<SearchResult>)
    ensures Ranked(items + [item], results)
            == Ranked(items, results) + if Points(item, |results|) then [Rescored(item, results)] else []
    ensures Targets(items + [item], |results|)
            == Targets(items, |results|) + if Points(item, |results|) then [IndexOf(item).value] else []
  {
    var more := items + [item];
    if items != [] {
      RankedSnoc(items[1..], item, results);
      assert more[0] == items[0] && more[1..] == items[1..] + [item];
    } else {
      assert more == [item] && more[1..] == [];
    }
  }

  /** The k-th result of the reranking stands for the k-th entry that points to a result. */
  lemma {:induction false} RankedExactly(items: seq<Item>, results: seq<SearchResult>) returns (at: seq<nat>)
    ensures Pointing(at, items, |results|)
    ensures Matches(Ranked(items, results), Targets(items, |results|), at, items, results)
  {
    at := [];
    if items != [] {
      var init, item := items[..|items| - 1], items[|items| - 1];
      assert items == init + [item];
      at := RankedExactly(init, results);
      PointingSnoc(at, init, item, |results|);
      MatchesSnoc(Ranked(init, results), Targets(init, |results|), at, init, item, results);
      RankedSnoc(init, item, results);
      if Points(item, |results|) {
        at := at + [|init|];
      }
    }
  }

  // ------------------------------------------------------------------- what it preserves

  /** An entry of the reply that is used. */
  predicate Answers(responses: seq<Response>, item: Item) {
    match Answer(responses)
    case Some(Items(items)) => item in items
    case _ => false
  }

  /**
   Whatever the models answer: at most top_k results, never none where there were
   some, and each one either given as it is or given up to the score that an entry
   of the used reply gives it.
   */
  lemma RerankOnlyRescores(enabled: bool, responses: seq<Response>, results: seq<SearchResult>, topK: nat)
    ensures var final := Reranked(enabled, responses, results, topK);
            && |final| <= topK
            && (results != [] && topK >= 1 ==> final != [])
            && forall r :: r in final ==>
                 || r in results
                 || (enabled && exists i, item :: Answers(responses, item) && StandsFor(r, i, item, results))
  {
    var final := Reranked(enabled, responses, results, topK);
    forall r | r in final && r !in results
      ensures enabled && exists i, item :: Answers(responses, item) && StandsFor(r, i, item, results)
    {
      var items := Answer(responses).value.items;
      var at := RankedExactly(items, results);
      var k :| 0 <= k < |Ranked(items, results)| && Ranked(items, results)[k] == r;
      assert Answers(responses, items[at[k]]);
      assert StandsFor(r, Targets(items, |results|)[k], items[at[k]], results);
    }
  }

  /**
   With a usable reply, one with an entry that points to a result, the k-th result
   returned stands for the k-th such entry, for the first top_k of them.
   */
  lemma RerankFollowsReply(responses: seq<Response>, results: seq<SearchResult>, items: seq<Item>, topK: nat)
    returns (at: seq<nat>)
    requires Answer(responses) == Some(Items(items))
    ensures Pointing(at, items, |results|)
    ensures at != [] ==>
              Matches(Reranked(true, responses, results, topK), Take(Targets(items, |results|), topK), Take(at, topK),
                      items, results)
  {
    at := RankedExactly(items, results);
    if at != [] {
      assert at[0] in at;
      hide Pointing, Ranked, Targets, StandsFor;
      var ranked := Ranked(items, results);
      assert Reranked(true, responses, results, topK) == Take(ranked, topK);
    }
  }

  predicate Distinct(s: seq<nat>) {
    forall i, j :: 0 <= i < j < |s| ==> s[i] != s[j]
  }

  /**
   Distinct results stay distinct unless the reply names one twice: exactly when
   the first top_k targets of the reply are distinct.
   */
  lemma RerankKeepsDistinctExactly(responses: seq<Response>, results: seq<SearchResult>, items: seq<Item>, topK: nat)
    requires DistinctResults(results) && Answer(responses) == Some(Items(items)) && Targets(items, |results|) != []
    ensures DistinctResults(Reranked(true, responses, results, topK))
            <==> Distinct(Take(Targets(items, |results|), topK))
  {
    var at := RankedExactly(items, results);
    var final, targets := Reranked(true, responses, results, topK), Take(Targets(items, |results|), topK);
    assert forall k :: 0 <= k < |final| ==> MergeKey(final[k]) == MergeKey(results[targets[k]]);
    forall i, j | 0 <= i < j < |final|
      ensures MergeKey(final[i]) == MergeKey(final[j]) <==> targets[i] == targets[j]
    {
      assert targets[i] < targets[j] || targets[j] < targets[i] || targets[i] == targets[j];
    }
  }

  /** Without a usable reply the results pass through, cut to top_k. */
  lemma UnusableReplyChangesNothing(enabled: bool, responses: seq<Response>, results: seq<SearchResult>, topK: nat)
    requires enabled ==> Answer(responses).None? || Answer(responses).value.Unreadable?
                         || Targets(Answer(responses).value.items, |results|) == []
    ensures Reranked(enabled, responses, results, topK) == Take(results, topK)
  {
    if enabled && Answer(responses).Some? && Answer(responses).value.Items? {
      var at := RankedExactly(Answer(responses).value.items, results);
    }
  }
}
