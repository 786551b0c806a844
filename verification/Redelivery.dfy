/**
 What the index holds after any run of the consumer: redelivery, retries and
 restarts repair it as long as no record with changes is abandoned for good
 (backend/retriever.py `upsert_pdf`, sync-service/internal/service.go).
 */
module Redelivery {
  import opened Options
  import opened Changes
  import opened DocumentIndex
  import opened Consumer

  function All(env: Env): seq<DocumentChange> {
    Flat(env.log, |env.log|)
  }

  // -------------------------------------------------------------- replaying a list

  /** Replaying from `cursor` up to `high` gives what applying each change once gives. */
  ghost predicate ReplaysTo(all: seq<DocumentChange>, bodies: seq<Body>, cursor: nat, high: nat, parse: Parser) {
    && cursor <= high <= |all|
    && ApplyAll(all[cursor..high], bodies, parse) == ApplyAll(all[..high], [], parse)
  }

  lemma ReplayJumpsBack(all: seq<DocumentChange>, bodies: seq<Body>, cursor: nat, high: nat, target: nat, parse: Parser)
    requires ReplaysTo(all, bodies, cursor, high, parse) && target <= cursor
    ensures ReplaysTo(all, bodies, target, high, parse)
  {
    SplitAround(all, target, cursor, high);
    JumpBack(all[..target], all[target..cursor], all[cursor..high], bodies, parse);
  }

  lemma SplitAround(all: seq<DocumentChange>, target: nat, cursor: nat, high: nat)
    requires target <= cursor <= high <= |all|
    ensures all[..high] == all[..target] + all[target..cursor] + all[cursor..high]
    ensures all[target..high] == all[target..cursor] + all[cursor..high]
  {
  }

  /** The furthest change applied, once the one at `cursor` has been applied too. */
  function Reach(cursor: nat, high: nat): nat {
    if cursor + 1 > high then cursor + 1 else high
  }

  lemma ReplayAdvances(all: seq<DocumentChange>, bodies: seq<Body>, cursor: nat, high: nat, parse: Parser)
    requires ReplaysTo(all, bodies, cursor, high, parse) && cursor < |all|
    ensures ReplaysTo(all, Apply(all[cursor], bodies, parse), cursor + 1, Reach(cursor, high), parse)
  {
    if cursor < high {
      assert all[cursor..high][1..] == all[cursor + 1..high];
    } else {
      var c := all[cursor];
      assert all[..cursor + 1] == all[..cursor] + [c];
      assert all[cursor..cursor] == [] && all[cursor + 1..cursor + 1] == [];
      ApplyAllAppend(all[..cursor], [c], [], parse);
      assert [c][1..] == [];
    }
  }

  /** Replaying further than the furthest applied change is applying the rest once. */
  lemma ReplayExtends(all: seq<DocumentChange>, bodies: seq<Body>, base: nat, high: nat, further: nat, parse: Parser)
    requires ReplaysTo(all, bodies, base, high, parse) && high <= further <= |all|
    ensures ReplaysTo(all, bodies, base, further, parse)
  {
    var rest := all[high..further];
    hide ApplyAll;
    SliceGrows(all, base, high, further);
    SliceGrows(all, 0, high, further);
    ApplyBothThen(all[base..high], all[..high], rest, bodies, parse);
  }

  lemma SliceGrows(all: seq<DocumentChange>, from: nat, middle: nat, to: nat)
    requires from <= middle <= to <= |all|
    ensures all[from..to] == all[from..middle] + all[middle..to]
    ensures all[..to] == all[0..to] && all[..middle] == all[0..middle]
  {
  }

  lemma ApplyBothThen(a: seq<DocumentChange>, b: seq<DocumentChange>, rest: seq<DocumentChange>,
                      bodies: seq<Body>, parse: Parser)
    requires ApplyAll(a, bodies, parse) == ApplyAll(b, [], parse)
    ensures ApplyAll(a + rest, bodies, parse) == ApplyAll(b + rest, [], parse)
  {
    ApplyAllAppend(a, rest, bodies, parse);
    ApplyAllAppend(b, rest, [], parse);
  }

  /** A replay does not notice that one of its changes was applied beforehand. */
  lemma ReplayAbsorbs(all: seq<DocumentChange>, bodies: seq<Body>, base: nat, cursor: nat, high: nat, parse: Parser)
    requires ReplaysTo(all, bodies, base, high, parse) && base <= cursor < |all|
    ensures ReplaysTo(all, Apply(all[cursor], bodies, parse), base, Reach(cursor, high), parse)
  {
    var further := Reach(cursor, high);
    ReplayExtends(all, bodies, base, high, further, parse);
    var replayed := all[base..further];
    assert replayed[cursor - base] == all[cursor];
    AppliedBeforehand(replayed, all[cursor], bodies, parse);
  }

  // -------------------------------------------------------------- what every step keeps

  /** Which changes a statement is about: all of them, or those that touch one source. */
  datatype Focus = Everything | Source(name: string)

  predicate Concerns(f: Focus, c: DocumentChange) {
    f.Source? ==> f.name in Touched(c)
  }

  /** The record at this offset holds a change in focus. */
  predicate Affects(env: Env, f: Focus, o: nat) {
    o < |env.log| && exists k :: 0 <= k < |env.log[o].Changes()| && Concerns(f, env.log[o].Changes()[k])
  }

  /** No record in focus has been skipped since the last restart, or is about to be. */
  ghost predicate Clean(env: Env, f: Focus, s: State) {
    && (forall o :: o in s.skipped ==> !Affects(env, f, o))
    && (s.phase == GivenUp && s.position > 0 ==> !Affects(env, f, s.position - 1))
  }

  /**
   This step abandons a record in focus for good: it writes it to the
   dead-letter topic, or commits past one whose dead letter failed.
   */
  ghost predicate Abandoning(env: Env, f: Focus, s: State, e: Event)
    requires Enabled(env, s, e)
  {
    || (e == DeadLetter(true) && Affects(env, f, s.position - 1))
    || (e == Commit(true) && exists o :: o in s.skipped && Affects(env, f, o))
  }

  ghost predicate Abandons(env: Env, f: Focus, es: seq<Event>)
    requires Legal(env, es)
  {
    es != [] && (Abandons(env, f, Before(es)) || Abandoning(env, f, After(env, Before(es)), Last(es)))
  }

  predicate Placed(env: Env, s: State) {
    && s.committed <= s.position <= |env.log| && (s.phase != Idle ==> s.committed < s.position)
    && (s.phase.Trying? ==> s.phase.next <= |env.log[s.position - 1].Changes()|)
  }

  /** Where a restart would begin. */
  function Base(env: Env, s: State): nat
    requires Placed(env, s)
  {
    |Flat(env.log, s.committed)|
  }

  /**
   Replaying from the committed offset always repairs the index; and while
   nothing with changes is skipped, so does replaying from where the consumer is.
   */
  ghost predicate Recoverable(env: Env, s: State) {
    && Placed(env, s)
    && ReplaysTo(All(env), s.bodies, Base(env, s), s.high, env.parse)
    && (Clean(env, Everything, s) ==> ReplaysTo(All(env), s.bodies, Cursor(env.log, s), s.high, env.parse))
  }

  /** The change an enabled attempt applies is the one under the cursor, at or after the committed offset. */
  lemma CursorAtNextChange(env: Env, s: State, e: Event)
    requires Enabled(env, s, e) && (e == Applied || e.ApplyFails?) && Placed(env, s)
    ensures Base(env, s) <= Cursor(env.log, s) < |All(env)|
    ensures All(env)[Cursor(env.log, s)] == env.log[s.position - 1].Changes()[s.phase.next]
  {
    hide Flat;
    FlatAt(env.log, s.position - 1, s.phase.next);
    FlatPrefix(env.log, s.committed, s.position - 1);
  }

  lemma ApplyMoves(env: Env, f: Focus, s: State)
    requires Enabled(env, s, Applied) && Placed(env, s)
    ensures var cursor, t := Cursor(env.log, s), Step(env, s, Applied);
            && cursor < |All(env)|
            && t.bodies == Apply(All(env)[cursor], s.bodies, env.parse) && t.high == Reach(cursor, s.high)
            && Placed(env, t) && Base(env, t) == Base(env, s) && Cursor(env.log, t) == cursor + 1
            && (Clean(env, f, t) <==> Clean(env, f, s))
  {
    CursorAtNextChange(env, s, Applied);
  }

  lemma ApplyStep(env: Env, s: State)
    requires Enabled(env, s, Applied) && Recoverable(env, s)
    ensures Recoverable(env, Step(env, s, Applied))
  {
    hide ReplaysTo, Clean, Step;
    CursorAtNextChange(env, s, Applied);
    ApplyMoves(env, Everything, s);
    ReplayAbsorbs(All(env), s.bodies, Base(env, s), Cursor(env.log, s), s.high, env.parse);
    if Clean(env, Everything, s) {
      ReplayAdvances(All(env), s.bodies, Cursor(env.log, s), s.high, env.parse);
    }
  }

  lemma FailureMoves(env: Env, f: Focus, s: State, e: Event)
    requires Enabled(env, s, e) && e.ApplyFails? && Placed(env, s)
    ensures var cursor, t := Cursor(env.log, s), Step(env, s, e);
            && cursor < |All(env)|
            && t.bodies == (if e.effective then Apply(All(env)[cursor], s.bodies, env.parse) else s.bodies)
            && t.high == (if e.effective then Reach(cursor, s.high) else s.high)
            && Placed(env, t) && Base(env, t) == Base(env, s) && Cursor(env.log, t) <= cursor
            && (Clean(env, f, t) <==> Clean(env, f, s))
  {
    CursorAtNextChange(env, s, e);
  }

  lemma FailureStep(env: Env, s: State, e: Event)
    requires Enabled(env, s, e) && e.ApplyFails? && Recoverable(env, s)
    ensures Recoverable(env, Step(env, s, e))
  {
    hide ReplaysTo, Clean, Step, All, Apply;
    var all, cursor, t := All(env), Cursor(env.log, s), Step(env, s, e);
    CursorAtNextChange(env, s, e);
    FailureMoves(env, Everything, s, e);
    if e.effective {
      ReplayAbsorbs(all, s.bodies, Base(env, s), cursor, s.high, env.parse);
      if Clean(env, Everything, s) {
        ReplayRepeats(all, s.bodies, cursor, s.high, Cursor(env.log, t), env.parse);
      }
    } else if Clean(env, Everything, s) {
      ReplayJumpsBack(all, s.bodies, cursor, s.high, Cursor(env.log, t), env.parse);
    }
  }

  /** One change is applied and then the cursor goes back. */
  lemma ReplayRepeats(all: seq<DocumentChange>, bodies: seq<Body>, cursor: nat, high: nat, target: nat, parse: Parser)
    requires ReplaysTo(all, bodies, cursor, high, parse) && target <= cursor < |all|
    ensures ReplaysTo(all, Apply(all[cursor], bodies, parse), target, Reach(cursor, high), parse)
  {
    hide ReplaysTo, Apply;
    ReplayAdvances(all, bodies, cursor, high, parse);
    ReplayJumpsBack(all, Apply(all[cursor], bodies, parse), cursor + 1, Reach(cursor, high), target, parse);
  }

  /** A commit moves the base to the cursor, and a restart the cursor to the base. */
  lemma CommitMoves(env: Env, f: Focus, s: State, e: Event)
    requires Enabled(env, s, e) && (e == Commit(true) || e == Crash) && Placed(env, s) && !Abandoning(env, f, s, e)
    ensures var t := Step(env, s, e);
            && Placed(env, t) && t.bodies == s.bodies && t.high == s.high && Clean(env, f, t)
            && Base(env, t) == Cursor(env.log, t) == (if e == Crash then Base(env, s) else Cursor(env.log, s))
            && (e != Crash ==> Clean(env, f, s))
  {
  }

  /** No change in [from, to) is in focus. */
  predicate Unaffected(f: Focus, all: seq<DocumentChange>, from: nat, to: nat)
    requires to <= |all|
  {
    forall i :: from <= i < to ==> !Concerns(f, all[i])
  }

  /** The other steps neither touch the index nor move the base; the cursor only moves past what is out of focus. */
  lemma QuietMoves(env: Env, f: Focus, s: State, e: Event)
    requires Enabled(env, s, e) && Placed(env, s) && !Abandoning(env, f, s, e)
    requires e != Applied && !e.ApplyFails? && e != Crash && e != Commit(true)
    ensures var t := Step(env, s, e);
            && Placed(env, t) && t.bodies == s.bodies && t.high == s.high && Base(env, t) == Base(env, s)
            && (Clean(env, f, t) ==>
                  && Clean(env, f, s)
                  && Cursor(env.log, s) <= Cursor(env.log, t) <= |All(env)|
                  && Unaffected(f, All(env), Cursor(env.log, s), Cursor(env.log, t)))
  {
    hide Step, Clean, Unaffected;
    if e == GiveUp {
      GiveUpMoves(env, f, s);
    } else {
      CursorStays(env, s, e);
      CleanBefore(env, f, s, e);
      CursorInLog(env, s);
      NothingBetween(env, f, Cursor(env.log, s));
    }
  }

  lemma CursorStays(env: Env, s: State, e: Event)
    requires Enabled(env, s, e) && Placed(env, s)
    requires e != Applied && !e.ApplyFails? && e != Crash && e != Commit(true) && e != GiveUp
    ensures var t := Step(env, s, e);
            && Placed(env, t) && t.bodies == s.bodies && t.high == s.high && Base(env, t) == Base(env, s)
            && Cursor(env.log, t) == Cursor(env.log, s)
  {
    if s.phase != Idle {
      FlatLength(env.log, s.position - 1);
    }
    hide Flat;
  }

  lemma FlatLength(log: seq<Record>, n: nat)
    requires n < |log|
    ensures |Flat(log, n + 1)| == |Flat(log, n)| + |log[n].Changes()|
  {
  }

  lemma CleanBefore(env: Env, f: Focus, s: State, e: Event)
    requires Enabled(env, s, e) && Placed(env, s) && !Abandoning(env, f, s, e)
    requires e != Applied && !e.ApplyFails? && e != Crash && e != Commit(true) && e != GiveUp
    ensures Clean(env, f, Step(env, s, e)) ==> Clean(env, f, s)
  {
    hide Affects, Flat;
    var t := Step(env, s, e);
    assert e.DeadLetter? && !e.ok ==> s.position - 1 in t.skipped;
    assert forall o :: o in s.skipped ==> o in t.skipped;
  }

  lemma CursorInLog(env: Env, s: State)
    requires Placed(env, s) && (s.phase != Idle ==> s.position > 0)
    ensures Cursor(env.log, s) <= |All(env)|
  {
    FlatPrefix(env.log, s.position, |env.log|);
    if s.phase != Idle {
      FlatPrefix(env.log, s.position - 1, |env.log|);
      FlatPrefix(env.log, s.position - 1, s.position);
    }
  }

  lemma NothingBetween(env: Env, f: Focus, at: nat)
    requires at <= |All(env)|
    ensures Unaffected(f, All(env), at, at)
  {
  }

  lemma GiveUpMoves(env: Env, f: Focus, s: State)
    requires Enabled(env, s, GiveUp) && Placed(env, s)
    ensures var t := Step(env, s, GiveUp);
            && Placed(env, t) && t.bodies == s.bodies && t.high == s.high && Base(env, t) == Base(env, s)
            && (Clean(env, f, t) ==>
                  && Clean(env, f, s)
                  && Cursor(env.log, s) <= Cursor(env.log, t) <= |All(env)|
                  && Unaffected(f, All(env), Cursor(env.log, s), Cursor(env.log, t)))
  {
    hide Affects, Unaffected;
    if Clean(env, f, Step(env, s, GiveUp)) {
      RecordUnaffected(env, f, s.position - 1);
    }
  }

  /** The changes of a record out of focus, seen in the whole log. */
  lemma RecordUnaffected(env: Env, f: Focus, o: nat)
    requires o < |env.log| && !Affects(env, f, o)
    ensures |Flat(env.log, o)| <= |Flat(env.log, o + 1)| <= |All(env)|
    ensures Unaffected(f, All(env), |Flat(env.log, o)|, |Flat(env.log, o + 1)|)
  {
    FlatPrefix(env.log, o + 1, |env.log|);
    forall i | |Flat(env.log, o)| <= i < |Flat(env.log, o + 1)|
      ensures !Concerns(f, All(env)[i])
    {
      FlatAt(env.log, o, i - |Flat(env.log, o)|);
    }
  }

  lemma QuietStep(env: Env, s: State, e: Event)
    requires Enabled(env, s, e) && Recoverable(env, s) && !Abandoning(env, Everything, s, e)
    requires e != Applied && !e.ApplyFails? && e != Crash && e != Commit(true)
    ensures Recoverable(env, Step(env, s, e))
  {
    hide ReplaysTo, Clean, Step, Abandoning;
    QuietMoves(env, Everything, s, e);
    var t := Step(env, s, e);
    if Clean(env, Everything, t) {
      assert Cursor(env.log, s) < Cursor(env.log, t) ==> Concerns(Everything, All(env)[Cursor(env.log, s)]);
    }
  }

  lemma RecoverStep(env: Env, s: State, e: Event)
    requires Enabled(env, s, e) && Recoverable(env, s) && !Abandoning(env, Everything, s, e)
    ensures Recoverable(env, Step(env, s, e))
  {
    hide ReplaysTo, Clean, Step, Abandoning, Placed;
    if e == Applied {
      ApplyStep(env, s);
    } else if e.ApplyFails? {
      FailureStep(env, s, e);
    } else if e == Crash || e == Commit(true) {
      CommitMoves(env, Everything, s, e);
    } else {
      QuietStep(env, s, e);
    }
  }

  lemma {:induction false} AlwaysRecoverable(env: Env, es: seq<Event>)
    requires Legal(env, es) && !Abandons(env, Everything, es)
    ensures Recoverable(env, After(env, es))
  {
    if es != [] {
      AlwaysRecoverable(env, Before(es));
      RecoverStep(env, After(env, Before(es)), Last(es));
    }
  }

  // -------------------------------------------------------------- convergence

  /**
   Redelivery repairs: at any moment of any run that abandons no record with
   changes, a restart that replays from the committed offset to the furthest
   change ever applied reaches what applying each change once in order gives.
   */
  lemma RedeliveryRepairs(env: Env, es: seq<Event>)
    requires Legal(env, es) && !Abandons(env, Everything, es)
    ensures var s := After(env, es);
            && s.committed <= |env.log| && |Flat(env.log, s.committed)| <= s.high <= |All(env)|
            && ApplyAll(All(env)[|Flat(env.log, s.committed)|..s.high], s.bodies, env.parse)
               == ApplyAll(All(env)[..s.high], [], env.parse)
  {
    AlwaysRecoverable(env, es);
  }

  /**
   Replay convergence: whatever mix of partial batches, retries, records given up
   on, failed dead letters, lost commits and crashes happened, once the consumer
   is back at the furthest change it ever applied with nothing skipped behind it,
   the index is what applying each change once in order gives.
   */
  lemma ReplayConvergence(env: Env, es: seq<Event>)
    requires Legal(env, es) && !Abandons(env, Everything, es) && Clean(env, Everything, After(env, es))
    ensures var s := After(env, es);
            && s.position <= |env.log| && (s.phase != Idle ==> s.position > 0)
            && Cursor(env.log, s) <= s.high <= |All(env)|
            && (Cursor(env.log, s) == s.high ==> s.bodies == ApplyAll(All(env)[..s.high], [], env.parse))
  {
    AlwaysRecoverable(env, es);
  }

  /** In particular a consumer that has read the whole log has indexed it exactly once. */
  lemma DrainedLogIsIndexedOnce(env: Env, es: seq<Event>)
    requires Legal(env, es) && !Abandons(env, Everything, es) && Clean(env, Everything, After(env, es))
    requires After(env, es).phase == Idle && After(env, es).position == |env.log|
    ensures After(env, es).bodies == ApplyAll(All(env), [], env.parse)
  {
    AlwaysRecoverable(env, es);
    ReplayReachesEnd(All(env), After(env, es).bodies, After(env, es).high, env.parse);
  }

  lemma ReplayReachesEnd(all: seq<DocumentChange>, bodies: seq<Body>, high: nat, parse: Parser)
    requires ReplaysTo(all, bodies, |all|, high, parse)
    ensures bodies == ApplyAll(all, [], parse)
  {
    assert all[..high] == all;
    assert all[high..high] == [];
  }

  // -------------------------------------------------------------- giving up

  /** What the consumer does between fetching a record and giving up on it. */
  predicate Working(e: Event) {
    e == Applied || e.ApplyFails? || e == Reject || e == Retry || e == GiveUp
  }

  predicate AllWorking(work: seq<Event>) {
    forall i :: 0 <= i < |work| ==> Working(work[i])
  }

  /** An event that applies a change, whether or not the consumer hears of it. */
  predicate Effective(e: Event) {
    e == Applied || e == ApplyFails(true)
  }

  /** How many changes each attempt applied. */
  function Lengths(work: seq<Event>): (ns: seq<nat>)
    ensures ns != []
  {
    if work == [] then [0] else
      var ns, e := Lengths(Before(work)), Last(work);
      if Effective(e) then ns[..|ns| - 1] + [ns[|ns| - 1] + 1]
      else if e == Retry then ns + [0]
      else ns
  }

  predicate Within(ns: seq<nat>, n: nat) {
    forall i :: 0 <= i < |ns| ==> ns[i] <= n
  }

  /** The prefixes of these lengths, one after the other. */
  function Prefixes(changes: seq<DocumentChange>, ns: seq<nat>): seq<DocumentChange>
    requires Within(ns, |changes|)
  {
    if ns == [] then [] else
      assert Within(ns[..|ns| - 1], |changes|);
      Prefixes(changes, ns[..|ns| - 1]) + changes[..ns[|ns| - 1]]
  }

  lemma PrefixesSnoc(changes: seq<DocumentChange>, ns: seq<nat>, n: nat)
    requires Within(ns, |changes|) && n <= |changes|
    ensures Within(ns + [n], |changes|) && Prefixes(changes, ns + [n]) == Prefixes(changes, ns) + changes[..n]
  {
    assert (ns + [n])[..|ns|] == ns;
  }

  lemma PrefixesGrow(changes: seq<DocumentChange>, ns: seq<nat>, n: nat)
    requires Within(ns, |changes|) && n < |changes|
    ensures Within(ns + [n], |changes|) && Within(ns + [n + 1], |changes|)
    ensures Prefixes(changes, ns + [n + 1]) == Prefixes(changes, ns + [n]) + [changes[n]]
  {
    PrefixesSnoc(changes, ns, n);
    PrefixesSnoc(changes, ns, n + 1);
    hide Prefixes, Within;
    PrefixBehind(Prefixes(changes, ns), changes, n);
  }

  lemma PrefixBehind(before: seq<DocumentChange>, changes: seq<DocumentChange>, n: nat)
    requires n < |changes|
    ensures before + changes[..n + 1] == before + changes[..n] + [changes[n]]
  {
  }

  /** Where the work on one record has led, from `bodies`. */
  ghost predicate Worked(env: Env, work: seq<Event>, o: nat, bodies: seq<Body>, s: State) {
    && o < |env.log| && s.position == o + 1
    && var changes, ns := env.log[o].Changes(), Lengths(work);
       && Within(ns, |changes|)
       && s.bodies == ApplyAll(Prefixes(changes, ns), bodies, env.parse)
       && (s.phase.Trying? ==> s.phase.next == ns[|ns| - 1])
  }

  lemma StepApplies(env: Env, s: State, e: Event)
    requires Enabled(env, s, e) && Effective(e)
    ensures var changes, t := env.log[s.position - 1].Changes(), Step(env, s, e);
            && s.phase.Trying? && s.phase.next < |changes| && t.position == s.position
            && t.bodies == Apply(changes[s.phase.next], s.bodies, env.parse)
            && (t.phase.Trying? ==> t.phase.next == s.phase.next + 1)
  {
  }

  /** One more change in the last attempt. */
  function OneMore(ns: seq<nat>): (r: seq<nat>)
    requires ns != []
    ensures |r| == |ns| && r[|r| - 1] == ns[|ns| - 1] + 1
  {
    ns[..|ns| - 1] + [ns[|ns| - 1] + 1]
  }

  lemma LastPrefixGrows(changes: seq<DocumentChange>, ns: seq<nat>, bodies: seq<Body>, parse: Parser)
    requires ns != [] && Within(ns, |changes|) && ns[|ns| - 1] < |changes|
    ensures Within(OneMore(ns), |changes|)
    ensures ApplyAll(Prefixes(changes, OneMore(ns)), bodies, parse)
            == Apply(changes[ns[|ns| - 1]], ApplyAll(Prefixes(changes, ns), bodies, parse), parse)
  {
    var init, n := ns[..|ns| - 1], ns[|ns| - 1];
    assert ns == init + [n];
    PrefixesGrow(changes, init, n);
    hide Prefixes, ApplyAll, Apply;
    AppliedLast(Prefixes(changes, ns), changes[n], bodies, parse);
  }

  lemma LengthsGrow(work: seq<Event>, e: Event)
    requires Effective(e)
    ensures Lengths(work + [e]) == OneMore(Lengths(work))
  {
    assert Before(work + [e]) == work;
  }

  lemma WorkApplies(env: Env, work: seq<Event>, e: Event, o: nat, bodies: seq<Body>, s: State)
    requires Worked(env, work, o, bodies, s) && Enabled(env, s, e) && Effective(e)
    ensures Worked(env, work + [e], o, bodies, Step(env, s, e))
  {
    StepApplies(env, s, e);
    LengthsGrow(work, e);
    hide Step, Enabled, Effective, Lengths, OneMore;
    LastPrefixGrows(env.log[o].Changes(), Lengths(work), bodies, env.parse);
  }

  lemma WorkGoesOn(env: Env, work: seq<Event>, e: Event, o: nat, bodies: seq<Body>, s: State)
    requires Worked(env, work, o, bodies, s) && Enabled(env, s, e) && Working(e) && !Effective(e)
    ensures Worked(env, work + [e], o, bodies, Step(env, s, e))
  {
    var changes, ns := env.log[o].Changes(), Lengths(work);
    assert Before(work + [e]) == work;
    hide Prefixes, ApplyAll;
    if e == Retry {
      PrefixesSnoc(changes, ns, 0);
      assert Prefixes(changes, ns) + changes[..0] == Prefixes(changes, ns);
    }
  }

  lemma WorkStep(env: Env, work: seq<Event>, e: Event, o: nat, bodies: seq<Body>, s: State)
    requires Worked(env, work, o, bodies, s) && Enabled(env, s, e) && Working(e)
    ensures Worked(env, work + [e], o, bodies, Step(env, s, e))
  {
    hide Worked, Step, Enabled;
    if Effective(e) {
      WorkApplies(env, work, e, o, bodies, s);
    } else {
      WorkGoesOn(env, work, e, o, bodies, s);
    }
  }

  lemma AppliedLast(cs: seq<DocumentChange>, c: DocumentChange, bodies: seq<Body>, parse: Parser)
    ensures ApplyAll(cs + [c], bodies, parse) == Apply(c, ApplyAll(cs, bodies, parse), parse)
  {
    ApplyAllAppend(cs, [c], bodies, parse);
    assert [c][1..] == [];
  }

  lemma WorkStarts(env: Env, head: seq<Event>)
    requires Legal(env, head) && Legal(env, head + [Fetch])
    ensures Worked(env, [], After(env, head).position, After(env, head).bodies, After(env, head + [Fetch]))
  {
    assert Before(head + [Fetch]) == head;
    PrefixesSnoc(env.log[After(env, head).position].Changes(), [], 0);
    assert [] + [0] == Lengths([]);
  }

  lemma {:induction false} WorkAppliesPrefixes(env: Env, head: seq<Event>, work: seq<Event>)
    requires AllWorking(work) && Legal(env, head) && Legal(env, head + [Fetch] + work)
    ensures Worked(env, work, After(env, head).position, After(env, head).bodies, After(env, head + [Fetch] + work))
  {
    hide Worked, Step, Enabled;
    var es := head + [Fetch] + work;
    if work == [] {
      assert es == head + [Fetch];
      WorkStarts(env, head);
    } else {
      var b, e := Before(work), Last(work);
      assert b + [e] == work;
      assert Before(es) == head + [Fetch] + b && Last(es) == e;
      WorkAppliesPrefixes(env, head, b);
      WorkStep(env, b, e, After(env, head).position, After(env, head).bodies, After(env, Before(es)));
    }
  }

  /**
   Giving up, exactly: the index then holds what it held when the record was
   fetched, followed by a prefix of the record's changes for every attempt. So
   decoding is all or nothing but indexing is not.
   */
  lemma GivenUpLeavesPrefixes(env: Env, head: seq<Event>, work: seq<Event>)
    requires Legal(env, head) && Legal(env, head + [Fetch] + work + [GiveUp]) && AllWorking(work)
    ensures var o := After(env, head).position;
            && o < |env.log| && Within(Lengths(work), |env.log[o].Changes()|)
            && After(env, head + [Fetch] + work + [GiveUp]).bodies
               == ApplyAll(Prefixes(env.log[o].Changes(), Lengths(work)), After(env, head).bodies, env.parse)
  {
    var es := head + [Fetch] + work + [GiveUp];
    assert Before(es) == head + [Fetch] + work && Last(es) == GiveUp;
    WorkAppliesPrefixes(env, head, work);
  }

  lemma {:induction false} NoEffectNoPrefix(changes: seq<DocumentChange>, work: seq<Event>)
    requires forall i :: 0 <= i < |work| ==> !Effective(work[i])
    ensures Within(Lengths(work), |changes|) && Prefixes(changes, Lengths(work)) == []
  {
    if work != [] {
      NoEffectNoPrefix(changes, Before(work));
      if Last(work) == Retry {
        PrefixesSnoc(changes, Lengths(Before(work)), 0);
      }
    } else {
      PrefixesSnoc(changes, [], 0);
      assert [] + [0] == Lengths(work);
    }
  }

  /** If no attempt applied anything, giving up leaves the index untouched. */
  lemma GivenUpWithoutEffect(env: Env, head: seq<Event>, work: seq<Event>)
    requires Legal(env, head) && Legal(env, head + [Fetch] + work + [GiveUp]) && AllWorking(work)
    requires forall i :: 0 <= i < |work| ==> !Effective(work[i])
    ensures After(env, head + [Fetch] + work + [GiveUp]).bodies == After(env, head).bodies
  {
    GivenUpLeavesPrefixes(env, head, work);
    NoEffectNoPrefix(env.log[After(env, head).position].Changes(), work);
  }

  /** A batch whose second change keeps failing is dead-lettered and committed. */
  const HALF_APPLIED_RUN: seq<Event> :=
    [Fetch, Applied, ApplyFails(false)] + [GiveUp, DeadLetter(true), Commit(true)]

  lemma HalfApplied(env: Env, c: DocumentChange, d: DocumentChange) returns (s: State)
    requires env.log != [] && env.log[0] == Record(Ok([c, d]), true)
    ensures Run(env, [Fetch, Applied, ApplyFails(false)]) == Some(s)
    ensures s.position == 1 && s.phase == Failed(1) && s.bodies == Apply(c, [], env.parse)
  {
    RunThen(env, [], START, Fetch);
    s := Step(env, START, Fetch);
    RunThen(env, [Fetch], s, Applied);
    s := Step(env, s, Applied);
    assert [Fetch] + [Applied] == [Fetch, Applied];
    RunThen(env, [Fetch, Applied], s, ApplyFails(false));
    s := Step(env, s, ApplyFails(false));
    assert [Fetch, Applied] + [ApplyFails(false)] == [Fetch, Applied, ApplyFails(false)];
  }

  /**
   An instance: the first change of a batch in the dead-letter topic stays
   applied. Nothing is lost, and nothing rolled back.
   */
  lemma DeadLetteredBatchMayBeHalfApplied(env: Env, c: DocumentChange, d: DocumentChange)
    requires env.log != [] && env.log[0] == Record(Ok([c, d]), true)
    ensures Legal(env, HALF_APPLIED_RUN)
    ensures var s := After(env, HALF_APPLIED_RUN);
            s.committed == 1 && 0 in s.deadLettered && s.bodies == Apply(c, [], env.parse)
  {
    var r := HALF_APPLIED_RUN;
    var s := HalfApplied(env, c, d);
    RunThen(env, r[..3], s, GiveUp);
    s := Step(env, s, GiveUp);
    assert r[..4] == r[..3] + [GiveUp];
    RunThen(env, r[..4], s, DeadLetter(true));
    s := Step(env, s, DeadLetter(true));
    assert r[..5] == r[..4] + [DeadLetter(true)];
    RunThen(env, r[..5], s, Commit(true));
    assert r == r[..5] + [Commit(true)];
  }
}
