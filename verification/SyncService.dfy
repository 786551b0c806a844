/**
 The consumer as it runs (sync-service/internal/service.go) on top of the
 index RPC (rag-service/server.py `IndexDocument`). What the environment (locks,
 RPCs, Kafka, the dead-letter topic) answers is an arbitrary input.
 Each method is proved to follow the step machine of module Consumer, so what is
 proved there about every run holds of this code.
 */
module SyncService {
  import opened Options
  import opened Sequences
  import opened Changes
  import opened DocumentIndex
  import opened Consumer
  import opened KnowledgeBases
  import opened Redelivery
  import opened SourceRedelivery

  /** The chunks of this source share a parent id exactly if they have the same parent; no parent id is empty. */
  predicate Related(chunks: seq<Chunk>, source: string) {
    && (forall i :: 0 <= i < |chunks| && chunks[i].body.source == source ==> chunks[i].parentId != "")
    && (forall i, j :: 0 <= i < |chunks| && 0 <= j < |chunks|
                       && chunks[i].body.source == source && chunks[j].body.source == source ==>
          (chunks[i].parentId == chunks[j].parentId
           <==> chunks[i].body.passage.parent == chunks[j].body.passage.parent))
  }

  /** The identifiers drawn so far, by parent: never the same twice. */
  predicate Drawn(ids: map<nat, string>, drawn: seq<string>) {
    && (forall p :: p in ids ==> ids[p] != "" && ids[p] in drawn)
    && (forall p, q :: p in ids && q in ids && ids[p] == ids[q] ==> p == q)
  }

  predicate IdentifiedBy(chunks: seq<Chunk>, ids: map<nat, string>) {
    forall i :: 0 <= i < |chunks| ==>
      chunks[i].body.passage.parent in ids && chunks[i].parentId == ids[chunks[i].body.passage.parent]
  }

  lemma RelatedBehindOthers(others: seq<Chunk>, parsed: seq<Chunk>, ids: map<nat, string>, drawn: seq<string>,
                            source: string)
    requires Drawn(ids, drawn) && IdentifiedBy(parsed, ids)
    requires NoneFrom(others, source)
    ensures Related(others + parsed, source)
  {
    var all := others + parsed;
    forall i | 0 <= i < |all| && all[i].body.source == source
      ensures all[i].body.passage.parent in ids && all[i].parentId == ids[all[i].body.passage.parent]
    {
      assert i >= |others| && all[i] == parsed[i - |others|];
    }
  }

  /**
   The chunks of a parsed file, with identifiers chosen at random, one for every
   parent. Behind chunks of other sources they are related by parent.
   */
  method IdentifyChunks(passages: seq<Passage>, source: string, ghost others: seq<Chunk>)
    returns (parsed: seq<Chunk>)
    requires NoneFrom(others, source)
    ensures Bodies(parsed) == Sourced(source, passages) && Related(others + parsed, source)
  {
    parsed := [];
    var ids: map<nat, string>, drawn: seq<string> := map[], [];
    for i := 0 to |passages|
      invariant Bodies(parsed) == Sourced(source, passages)[..i]
      invariant Drawn(ids, drawn) && IdentifiedBy(parsed, ids)
    {
      var parent := passages[i].parent;
      if parent !in ids {
        var parentId := DrawId(drawn);
        ids, drawn := ids[parent := parentId], drawn + [parentId];
      }
      var id: string := *;
      parsed := parsed + [Chunk(id, ids[parent], Body(source, passages[i]))];
    }
    RelatedBehindOthers(others, parsed, ids, drawn, source);
  }

  /** `uuid4`: any name that was not drawn before. */
  method DrawId(drawn: seq<string>) returns (id: string)
    ensures id != "" && id !in drawn
  {
    id := *;
    if id == "" || id in drawn {
      id := LongName(drawn);
    }
  }

  function LongName(drawn: seq<string>): (name: string)
    ensures name != "" && forall i :: 0 <= i < |drawn| ==> |name| > |drawn[i]|
  {
    if drawn == [] then "-" else
      var name := LongName(drawn[1..]);
      assert forall i :: 1 <= i < |drawn| ==> drawn[i] == drawn[1..][i - 1];
      if |name| > |drawn[0]| then name else drawn[0] + "-"
  }

  /** What one call meets: the lock, the uploaded file, the index, the reply. */
  datatype Conditions = Conditions(locked: bool, isFile: bool, fault: Fault, replied: bool)

  predicate Favourable(w: Conditions) {
    w.locked && w.isFile && w.fault == NoFault && w.replied
  }

  /**
   `IndexDocument`: dispatches on the upper-cased operation. A successful reply
   means that the change was applied; a failure may come before or after it took effect.
   */
  method IndexDocument(kb: KnowledgeBase, c: DocumentChange, parse: Parser, w: Conditions)
    returns (ok: bool, ghost effective: bool)
    requires kb.Valid()
    modifies kb, kb.bm25
    ensures kb.Valid()
    ensures ok ==> effective
    ensures Favourable(w) && KnownOperation(ToUpper(c.operation)) ==> ok
    ensures !KnownOperation(ToUpper(c.operation)) ==> !effective
    ensures ToUpper(c.operation) != "DELETE" && !w.isFile ==> !effective
    ensures Bodies(kb.chunks) ==
            if effective then Apply(c.(operation := ToUpper(c.operation)), Bodies(old(kb.chunks)), parse)
            else Bodies(old(kb.chunks))
    ensures effective && ToUpper(c.operation) != "DELETE" ==> Related(kb.chunks, c.source)
  {
    var operation := ToUpper(c.operation);
    if operation == "DELETE" {
      var removed;
      ok, removed := kb.DeleteSource(c.source, w.fault);
      effective := ok || w.fault != FailsFirst;
      WithoutNone(Bodies(old(kb.chunks)), {});
      assert forall bodies: seq<Body> :: bodies + [] == bodies;
    } else if operation == "INSERT" || operation == "UPDATE" {
      if !w.isFile {
        return false, false;
      }
      ExcludingExcludes(kb.chunks, c.source);
      var parsed := IdentifyChunks(parse(c.filePath), c.source, Excluding(kb.chunks, c.source));
      ok := kb.UpsertPdf(parsed, c.source, w.fault);
      effective := w.fault != FailsFirst;
    } else {
      return false, false;
    }
  }

  lemma NormalOperationStays(operation: string)
    requires KnownOperation(operation)
    ensures ToUpper(operation) == operation
  {
    assert forall i :: 0 <= i < |operation| ==> Upper(operation[i]) == operation[i];
  }

  datatype Outcome = Succeeded | Ignored | Errored

  /** What attempt `a` meets at change `i`. */
  type Weather = (nat, nat) -> Conditions

  /** Attempt `a` meets no obstacle at any of its `n` changes. */
  ghost predicate Smooth(w: Weather, a: nat, n: nat) {
    forall i: nat :: i < n ==> Favourable(w(a, i))
  }

  /** None of the first `last` attempts is without an obstacle. */
  ghost predicate Hindered(w: Weather, last: nat, n: nat) {
    forall a: nat :: 1 <= a <= last ==> !Smooth(w, a, n)
  }

  lemma NoneHindered(w: Weather, n: nat)
    ensures Hindered(w, 0, n)
  {
  }

  lemma HinderedOnceMore(w: Weather, last: nat, n: nat)
    requires Hindered(w, last, n) && !Smooth(w, last + 1, n)
    ensures Hindered(w, last + 1, n)
  {
  }

  lemma HinderedIsLost(w: Weather, cancelAt: nat, retries: nat, n: nat, last: nat)
    requires last == retries || last == cancelAt > 0
    ensures Hindered(w, last, n) ==> !Winnable(w, cancelAt, retries, n)
  {
  }

  /**
   One round of the endless loop: whether a record was fetched, what its attempts
   meet, after which attempt the context is cancelled (0 for none), and whether
   Kafka takes the dead letter and the commit.
   */
  datatype Round = Round(fetched: bool, weather: Weather, cancelAt: nat, takesDeadLetter: bool, takesCommit: bool)

  /** Some attempt that is made unless an earlier one succeeds meets no obstacle. */
  ghost predicate Winnable(w: Weather, cancelAt: nat, retries: nat, n: nat) {
    exists a: nat :: 1 <= a <= retries && (cancelAt == 0 || a <= cancelAt) && Smooth(w, a, n)
  }

  function Fetches(rounds: seq<Round>): nat {
    if rounds == [] then 0 else Fetches(rounds[..|rounds| - 1]) + if rounds[|rounds| - 1].fetched then 1 else 0
  }

  lemma FetchesSnoc(rounds: seq<Round>, k: nat)
    requires k < |rounds|
    ensures Fetches(rounds[..k + 1]) == Fetches(rounds[..k]) + if rounds[k].fetched then 1 else 0
  {
    assert rounds[..k + 1][..k] == rounds[..k];
  }

  class Service {
    const payloads: seq<Payload>
    const retries: nat
    const parse: Parser
    const kb: KnowledgeBase
    /** The same, as the step machine sees it. */
    ghost const env: Env
    var position: nat
    var committed: nat
    var deadLetters: seq<nat>
    /** The run so far, the states it went through, and the one it leads to. */
    ghost var trace: seq<Event>
    ghost var states: seq<State>
    ghost var now: State

    /** The step machine's records are the decoded payloads. */
    ghost predicate Decodes() {
      && |env.log| == |payloads|
      && forall i {:trigger payloads[i]} :: 0 <= i < |payloads| ==> env.log[i] == RecordOf(payloads[i])
    }

    ghost predicate Valid()
      reads this, kb, kb.bm25
    {
      kb.Valid() && Tracks(Bodies(kb.chunks))
    }

    /** The run recorded so far has led here, with these bodies in the index. */
    ghost predicate Tracks(bodies: seq<Body>)
      reads this
    {
      && env.retries == retries && env.parse == parse && |env.log| == |payloads|
      && Follows(env, states, trace) && states[|trace|] == now
      && now.position == position <= |payloads|
      && now.committed == committed
      && now.bodies == bodies
      && (now.phase != Idle ==> position > 0)
      && (forall o :: o in now.deadLettered <==> o in deadLetters)
    }

    constructor (payloads: seq<Payload>, retries: nat, parse: Parser, kb: KnowledgeBase)
      requires retries >= 1 && kb.Valid() && kb.chunks == []
      ensures Valid() && Decodes()
      ensures this.payloads == payloads && this.retries == retries && this.parse == parse && this.kb == kb
      ensures trace == []
    {
      this.payloads, this.retries, this.parse, this.kb := payloads, retries, parse, kb;
      env := Env(seq(|payloads|, i requires 0 <= i < |payloads| => RecordOf(payloads[i])), retries, parse);
      position, committed, deadLetters, trace, states, now := 0, 0, [], [], [START], START;
    }

    /** Records a step that the code has just taken. */
    ghost method Record(e: Event)
      requires Follows(env, states, trace) && states[|trace|] == now && Enabled(env, now, e)
      modifies this`trace, this`states, this`now
      ensures trace == old(trace) + [e] && now == Step(env, old(now), e) && states == old(states) + [now]
      ensures Follows(env, states, trace) && states[|trace|] == now
    {
      FollowsSnoc(env, states, trace, e);
      now := Step(env, now, e);
      states := states + [now];
      trace := trace + [e];
    }

    /** Records a step of the work on the record in hand, which leaves `after` in the index. */
    ghost method Advance(e: Event, before: seq<Body>, after: seq<Body>)
      requires Tracks(before) && Enabled(env, now, e) && Step(env, now, e).bodies == after
      requires Working(e) || e == Ignore || e == Complete
      modifies this`trace, this`states, this`now
      ensures Tracks(after) && now == Step(env, old(now), e)
    {
      Record(e);
    }

    lemma InHand(bodies: seq<Body>)
      requires Tracks(bodies) && now.phase != Idle
      ensures 0 < position == now.position <= |env.log| && |env.log| == |payloads|
      ensures env.retries == retries && env.parse == parse && now.bodies == bodies
    {
    }

    /** `syncDocument`: lock, call, release. */
    method SyncDocument(change: DocumentChange, w: Conditions) returns (ok: bool)
      requires Valid() && now.phase.Trying?
      requires now.phase.next < |env.log[position - 1].Changes()|
      requires change == env.log[position - 1].Changes()[now.phase.next] && KnownOperation(change.operation)
      modifies this`trace, this`states, this`now, kb, kb.bm25
      ensures Valid()
      ensures now.phase == if ok then Trying(old(now.phase.attempt), old(now.phase.next) + 1)
                           else Failed(old(now.phase.attempt))
      ensures Favourable(w) ==> ok
      ensures ok ==> w.locked && w.replied
      ensures !w.locked ==> now.bodies == old(now.bodies)
    {
      hide Tracks, ToUpper, Apply;
      ghost var before := Bodies(kb.chunks);
      InHand(before);
      if !w.locked {
        Advance(ApplyFails(false), before, before);
        return false;
      }
      NormalOperationStays(change.operation);
      ghost var effective;
      ok, effective := IndexDocument(kb, change, parse, w);
      ok := ok && w.replied;
      Advance(if ok then Applied else ApplyFails(effective), before, Bodies(kb.chunks));
    }

    /** Decodes the record in hand. */
    method DecodeCurrent() returns (decoded: Result<seq<DocumentChange>>)
      requires Valid() && Decodes() && position > 0
      ensures decoded == env.log[position - 1].outcome
      ensures decoded.Ok? ==> forall i :: 0 <= i < |decoded.value| ==> KnownOperation(decoded.value[i].operation)
    {
      var payload := payloads[position - 1];
      decoded := DecodeDocumentChanges(payload);
      DecodingIsAllOrNothing(payload);
    }

    /** This is the record in hand. */
    ghost predicate Holds(record: Consumer.Record)
      reads this`position
    {
      0 < position <= |env.log| && record == env.log[position - 1]
    }

    /** `process`: decodes the record and applies its changes in order, stopping at the first failure. */
    method Process(attempt: nat, w: Weather, ghost record: Consumer.Record) returns (outcome: Outcome)
      requires Valid() && Decodes() && now.phase == Trying(attempt, 0) && Holds(record)
      modifies this`trace, this`states, this`now, kb, kb.bm25
      ensures Valid()
      ensures now.phase == if outcome.Errored? then Failed(attempt) else Settled
      ensures outcome.Ignored? <==> record.outcome == Err(MessageIgnored)
      ensures outcome.Succeeded? ==> record.outcome.Ok?
      ensures !outcome.Errored? ==> position - 1 in now.handled
      ensures record.outcome.Ok? && outcome.Errored? ==>
                !Smooth(w, attempt, |record.Changes()|)
    {
      var decoded := DecodeCurrent();
      InHand(Bodies(kb.chunks));
      hide Tracks, Smooth;
      if decoded.Err? {
        if decoded.error == MessageIgnored {
          Advance(Ignore, Bodies(kb.chunks), Bodies(kb.chunks));
          return Ignored;
        }
        Advance(Reject, Bodies(kb.chunks), Bodies(kb.chunks));
        return Errored;
      }
      var ok := ApplyChanges(decoded.value, attempt, w);
      if !ok {
        return Errored;
      }
      InHand(Bodies(kb.chunks));
      Advance(Complete, Bodies(kb.chunks), Bodies(kb.chunks));
      return Succeeded;
    }

    /** The loop of `process` over the changes of a record. */
    method ApplyChanges(changes: seq<DocumentChange>, attempt: nat, w: Weather) returns (ok: bool)
      requires Valid() && now.phase == Trying(attempt, 0) && changes == env.log[position - 1].Changes()
      requires forall i :: 0 <= i < |changes| ==> KnownOperation(changes[i].operation)
      modifies this`trace, this`states, this`now, kb, kb.bm25
      ensures Valid()
      ensures now.phase == if ok then Trying(attempt, |changes|) else Failed(attempt)
      ensures !ok ==> !Smooth(w, attempt, |changes|)
    {
      InHand(Bodies(kb.chunks));
      hide Valid;
      for i := 0 to |changes|
        invariant Valid() && now.phase == Trying(attempt, i)
      {
        ok := SyncDocument(changes[i], w(attempt, i));
        if !ok {
          assert !Favourable(w(attempt, i));
          return false;
        }
      }
      return true;
    }

    /** The loop ends after attempt `k`, without success. */
    ghost method Abandon(k: nat)
      requires Valid() && now.phase == Failed(k)
      modifies this`trace, this`states, this`now
      ensures Valid() && now.phase == GivenUp
      ensures |states| >= 2 && states[|states| - 2].phase == Failed(k)
    {
      Record(GiveUp);
    }

    /** The loop goes on after attempt `k`. */
    ghost method TryAgain(k: nat)
      requires Valid() && now.phase == Failed(k) && k < retries
      modifies this`trace, this`states, this`now
      ensures Valid() && now.phase == Trying(k + 1, 0)
    {
      Advance(Retry, Bodies(kb.chunks), Bodies(kb.chunks));
    }

    /** The next attempt; a failure adds to what hindered the earlier ones. */
    method Attempt(attempt: nat, w: Weather, ghost record: Consumer.Record) returns (outcome: Outcome)
      requires Valid() && Decodes() && attempt >= 1 && now.phase == Trying(attempt, 0) && Holds(record)
      requires record.outcome.Ok? ==> Hindered(w, attempt - 1, |record.Changes()|)
      modifies this`trace, this`states, this`now, kb, kb.bm25
      ensures Valid()
      ensures now.phase == if outcome.Errored? then Failed(attempt) else Settled
      ensures outcome.Ignored? <==> record.outcome == Err(MessageIgnored)
      ensures !outcome.Errored? ==> position - 1 in now.handled
      ensures outcome.Errored? && record.outcome.Ok? ==> Hindered(w, attempt, |record.Changes()|)
    {
      hide Valid, Decodes, Hindered, Smooth, Holds;
      outcome := Process(attempt, w, record);
      if outcome.Errored? && record.outcome.Ok? {
        HinderedOnceMore(w, attempt - 1, |record.Changes()|);
      }
    }

    /**
     `handleWithRetry`: attempts until one succeeds, at most `retries` times, unless
     the context is cancelled in between. It gives up after the last attempt or at
     the cancellation and no earlier, so a record that decodes succeeds as soon as
     one of the attempts up to there meets no obstacle.
     */
    method HandleWithRetry(w: Weather, cancelAt: nat, ghost record: Consumer.Record) returns (outcome: Outcome)
      requires Valid() && Decodes() && now.phase == Trying(1, 0) && retries >= 1 && Holds(record)
      modifies this`trace, this`states, this`now, kb, kb.bm25
      ensures Valid()
      ensures now.phase == if outcome.Errored? then GivenUp else Settled
      ensures outcome.Ignored? <==> record.outcome == Err(MessageIgnored)
      ensures !outcome.Errored? ==> position - 1 in now.handled
      ensures outcome.Errored? ==>
                && |states| >= 2 && states[|states| - 2].phase.Failed?
                && var last := states[|states| - 2].phase.attempt;
                   if 0 < cancelAt < retries then last == cancelAt else last == retries
      ensures record.outcome.Ok?
              && Winnable(w, cancelAt, retries, |record.Changes()|)
              ==> outcome.Succeeded?
    {
      hide Valid, Decodes, Hindered, Smooth, Holds, Winnable;
      ghost var n := |record.Changes()|;
      NoneHindered(w, n);
      var lastOutcome := Errored;
      for attempt := 1 to retries + 1
        invariant Valid() && lastOutcome == Errored && Holds(record)
        invariant now.phase == if attempt <= retries then Trying(attempt, 0) else Failed(retries)
        invariant cancelAt == 0 || attempt <= cancelAt || retries <= cancelAt
        invariant attempt > 1 ==> record.outcome != Err(MessageIgnored)
        invariant record.outcome.Ok? ==> Hindered(w, attempt - 1, n)
      {
        outcome := Attempt(attempt, w, record);
        if !outcome.Errored? {
          return;
        }
        lastOutcome := outcome;
        if attempt < retries {
          if attempt == cancelAt {
            HinderedIsLost(w, cancelAt, retries, n, attempt);
            Abandon(attempt);
            return Errored;
          }
          TryAgain(attempt);
        }
      }
      HinderedIsLost(w, cancelAt, retries, n, retries);
      Abandon(retries);
      return lastOutcome;
    }

    /** `sendDLQ`: malformed bytes cannot be embedded as a raw message; a missing value is written as null. */
    method SendDLQ(taken: bool) returns (ok: bool)
      requires Valid() && Decodes() && now.phase == GivenUp
      modifies this`trace, this`states, this`now, this`deadLetters
      ensures Valid()
      ensures now.phase == if ok then Settled else Idle
      ensures ok <==> taken && !payloads[position - 1].Malformed?
      ensures deadLetters == if ok then old(deadLetters) + [position - 1] else old(deadLetters)
    {
      assert env.log[position - 1] == RecordOf(payloads[position - 1]);
      if payloads[position - 1].Malformed? {
        Record(DeadLetter(false));
        return false;
      }
      ok := taken;
      if ok {
        deadLetters := deadLetters + [position - 1];
      }
      Record(DeadLetter(ok));
    }

    /** `CommitMessages`: the committed offset covers everything before the read position. */
    method CommitMessages(taken: bool)
      requires Valid() && now.phase == Settled
      modifies this`trace, this`states, this`now, this`committed
      ensures Valid() && now.phase == Idle
      ensures committed == if taken then position else old(committed)
      ensures now.handled == old(now.handled)
    {
      if taken {
        committed := position;
      }
      Record(Commit(taken));
    }

    /** `FetchMessage`, when there is one. */
    method FetchMessage()
      requires Valid() && Decodes() && now.phase == Idle && position < |payloads|
      modifies this`trace, this`states, this`now, this`position
      ensures Valid() && now.phase == Trying(1, 0) && position == old(position) + 1 <= |payloads|
      ensures Holds(RecordOf(payloads[position - 1]))
    {
      position := position + 1;
      Record(Fetch);
      assert env.log[position - 1] == RecordOf(payloads[position - 1]);
    }

    /** One round of `Consume`. */
    method ConsumeOne(round: Round)
      requires Valid() && Decodes() && now.phase == Idle && retries >= 1
      modifies this`trace, this`states, this`now, this`position, this`committed, this`deadLetters, kb, kb.bm25
      ensures Valid() && now.phase == Idle
      ensures position == if round.fetched && old(position) < |payloads| then old(position) + 1 else old(position)
      ensures committed == old(committed) || committed == position
      ensures position > old(position) && round.takesDeadLetter && round.takesCommit
              && !payloads[position - 1].Malformed?
              ==> committed == position
      ensures position > old(position) && Promising(position - 1, round) ==>
                && position - 1 in now.handled && deadLetters == old(deadLetters)
                && (round.takesCommit ==> committed == position)
    {
      assert position <= |payloads|;
      hide Valid, Decodes, Promising, Holds, RecordOf;
      if !round.fetched || position == |payloads| {
        return;
      }
      FetchMessage();
      Handle(round);
    }

    /** The work on the record just fetched. */
    method Handle(round: Round)
      requires Valid() && Decodes() && now.phase == Trying(1, 0) && retries >= 1
      requires 0 < position <= |payloads| && Holds(RecordOf(payloads[position - 1]))
      modifies this`trace, this`states, this`now, this`deadLetters, this`committed, kb, kb.bm25
      ensures Valid() && now.phase == Idle
      ensures committed == old(committed) || committed == position
      ensures round.takesDeadLetter && round.takesCommit && !payloads[position - 1].Malformed? ==> committed == position
      ensures Promising(position - 1, round) ==>
                && position - 1 in now.handled && deadLetters == old(deadLetters)
                && (round.takesCommit ==> committed == position)
    {
      hide Valid, Decodes, Promising, Holds, RecordOf;
      var outcome := Work(round);
      Settle(outcome, round);
    }

    /** The record at this offset decodes, and some attempt before any cancellation meets no obstacle. */
    ghost predicate Promising(o: nat, round: Round) {
      && o < |payloads| && Decoded(payloads[o]).Ok?
      && Winnable(round.weather, round.cancelAt, retries, |Decoded(payloads[o]).value|)
    }

    /** The attempts of a round. */
    method Work(round: Round) returns (outcome: Outcome)
      requires Valid() && Decodes() && now.phase == Trying(1, 0) && retries >= 1
      requires 0 < position <= |payloads| && Holds(RecordOf(payloads[position - 1]))
      modifies this`trace, this`states, this`now, kb, kb.bm25
      ensures Valid()
      ensures now.phase == if outcome.Errored? then GivenUp else Settled
      ensures !outcome.Errored? ==> position - 1 in now.handled
      ensures Promising(position - 1, round) ==> outcome.Succeeded?
    {
      hide Valid, Decodes, Winnable, Decoded, Holds;
      outcome := HandleWithRetry(round.weather, round.cancelAt, RecordOf(payloads[position - 1]));
    }

    /** The rest of a round: a dead letter for a record given up on, then the commit. */
    method Settle(outcome: Outcome, round: Round)
      requires Valid() && Decodes() && 0 < position <= |payloads|
      requires now.phase == if outcome.Errored? then GivenUp else Settled
      modifies this`trace, this`states, this`now, this`deadLetters, this`committed
      ensures Valid() && now.phase == Idle
      ensures committed == old(committed) || committed == position
      ensures outcome.Errored? ==>
                (round.takesDeadLetter && round.takesCommit && !payloads[position - 1].Malformed?
                 ==> committed == position)
      ensures !outcome.Errored? ==>
                && now.handled == old(now.handled) && deadLetters == old(deadLetters)
                && (round.takesCommit ==> committed == position)
    {
      hide Valid;
      if outcome.Errored? {
        var sent := SendDLQ(round.takesDeadLetter);
        if !sent {
          return;
        }
      }
      CommitMessages(round.takesCommit);
    }

    /** The process dies, at any point; the next one resumes from the committed offset. */
    method CrashAndRestart()
      requires Valid()
      modifies this`trace, this`states, this`now, this`position
      ensures Valid() && now.phase == Idle && position == committed
    {
      FollowingIsRunning(env, states, trace);
      AlwaysTracked(env, trace);
      position := committed;
      Record(Crash);
    }

    /**
     `Consume`, for any number of rounds of its endless loop. Whatever happened:
     committed offsets are accounted for exactly when no commit overran a failed
     dead-letter write, and a drained log is indexed as if each change had been
     applied once, provided that no record with changes was abandoned: neither
     dead-lettered, nor committed past or still skipped after a failed dead letter.
     Source by source only the records that touch the source must not have been.
     It reads one record per fetch, and commits all it reads as long as Kafka takes
     every write and no payload is malformed.
     */
    method Consume(rounds: seq<Round>)
      requires Valid() && Decodes() && now.phase == Idle && retries >= 1
      modifies this`trace, this`states, this`now, this`position, this`committed, this`deadLetters, kb, kb.bm25
      ensures Valid() && now.phase == Idle
      ensures Run(env, trace) == Some(now)
      ensures Safe(now) <==> !Overruns(env, trace)
      ensures position == |payloads| && !Abandons(env, Everything, trace) && Clean(env, Everything, now) ==>
                Bodies(kb.chunks) == ApplyAll(All(env), [], parse)
      ensures forall source :: position == |payloads| && Undisturbed(source) ==>
                View(Bodies(kb.chunks), source) == View(ApplyAll(All(env), [], parse), source)
      ensures position == Min(|payloads|, old(position) + Fetches(rounds))
      ensures old(committed) == old(position) && Orderly(rounds) ==> committed == position
    {
      Rounds(rounds);
      FollowingIsRunning(env, states, trace);
      CommitSafety(env, trace);
      if position == |payloads| {
        assert now == After(env, trace) && now.position == |env.log|;
        if !Abandons(env, Everything, trace) && Clean(env, Everything, now) {
          DrainedLogIsIndexedOnce(env, trace);
        }
        forall source | Undisturbed(source)
          ensures View(Bodies(kb.chunks), source) == View(ApplyAll(All(env), [], parse), source)
        {
          DrainedSourceIsIndexedOnce(env, source, trace);
        }
      }
    }

    /** No record that touches the source was abandoned so far, and none is skipped. */
    ghost predicate Undisturbed(source: string)
      requires Legal(env, trace)
      reads this
    {
      !Abandons(env, Source(source), trace) && Clean(env, Source(source), now)
    }

    method Rounds(rounds: seq<Round>)
      requires Valid() && Decodes() && now.phase == Idle && retries >= 1
      modifies this`trace, this`states, this`now, this`position, this`committed, this`deadLetters, kb, kb.bm25
      ensures Valid() && now.phase == Idle
      ensures position == Min(|payloads|, old(position) + Fetches(rounds))
      ensures old(committed) == old(position) && Orderly(rounds) ==> committed == position
    {
      ghost var orderly := committed == position && Orderly(rounds);
      ghost var first := position;
      ghost var read: nat := 0;
      for k := 0 to |rounds|
        invariant Valid() && now.phase == Idle && first <= position
        invariant read == Fetches(rounds[..k]) && position == Min(|payloads|, first + read)
        invariant orderly ==> committed == position
      {
        FetchesSnoc(rounds, k);
        ConsumeOne(rounds[k]);
        read := read + if rounds[k].fetched then 1 else 0;
      }
      assert rounds[..|rounds|] == rounds;
    }

    /** Kafka takes every write, and no payload is malformed. */
    ghost predicate Orderly(rounds: seq<Round>) {
      && (forall k :: 0 <= k < |rounds| ==> rounds[k].takesDeadLetter && rounds[k].takesCommit)
      && (forall o :: 0 <= o < |payloads| ==> !payloads[o].Malformed?)
    }
  }
}
