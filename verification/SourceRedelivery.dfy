/**
 What the index holds of one document after any run of the consumer: a record
 that is abandoned for good harms no source but those it touches
 (backend/retriever.py `upsert_pdf`, sync-service/internal/service.go).
 */
module SourceRedelivery {
  import opened Changes
  import opened DocumentIndex
  import opened Consumer
  import opened Redelivery

  // -------------------------------------------------------------- the chunks of one source

  lemma ViewApply(c: DocumentChange, bodies: seq<Body>, source: string, parse: Parser)
    ensures View(Apply(c, bodies, parse), source)
            == if source in Touched(c) then View(Added(c, parse), source) else View(bodies, source)
  {
    ViewAppend(Without(bodies, Touched(c)), Added(c, parse), source);
    ViewWithout(bodies, Touched(c), source);
    if source !in Touched(c) {
      ViewEmpty(Added(c, parse), source);
    }
  }

  /** The chunks of a source once the first `n` changes have been applied, each once. */
  function Due(all: seq<DocumentChange>, n: nat, source: string, parse: Parser): seq<Body>
    requires n <= |all|
  {
    View(ApplyAll(all[..n], [], parse), source)
  }

  lemma DueNext(all: seq<DocumentChange>, n: nat, source: string, parse: Parser)
    requires n < |all|
    ensures Due(all, n + 1, source, parse)
            == if source in Touched(all[n]) then View(Added(all[n], parse), source) else Due(all, n, source, parse)
  {
    assert all[..n + 1] == all[..n] + [all[n]];
    AppliedLast(all[..n], all[n], [], parse);
    ViewApply(all[n], ApplyAll(all[..n], [], parse), source, parse);
  }

  lemma {:induction false} DueStays(all: seq<DocumentChange>, from: nat, to: nat, source: string, parse: Parser)
    requires from <= to <= |all| && Unaffected(Source(source), all, from, to)
    ensures Due(all, from, source, parse) == Due(all, to, source, parse)
  {
    if from < to {
      DueStays(all, from, to - 1, source, parse);
      DueNext(all, to - 1, source, parse);
      assert !Concerns(Source(source), all[to - 1]);
    }
  }

  // -------------------------------------------------------------- replaying from somewhere

  /**
   A replay from `cursor` leaves the source right: either a change between there
   and the furthest one ever applied will rewrite it, or it is right already; and
   beyond the furthest one nothing that touches it was passed over.
   */
  ghost predicate Shows(all: seq<DocumentChange>, bodies: seq<Body>, source: string, cursor: nat, high: nat,
                        parse: Parser)
  {
    && cursor <= |all| && high <= |all|
    && Unaffected(Source(source), all, high, cursor)
    && (Unaffected(Source(source), all, cursor, high) ==> View(bodies, source) == Due(all, cursor, source, parse))
  }

  lemma ShowsAdvances(all: seq<DocumentChange>, bodies: seq<Body>, source: string, cursor: nat, high: nat,
                      parse: Parser)
    requires Shows(all, bodies, source, cursor, high, parse) && cursor < |all|
    ensures Shows(all, Apply(all[cursor], bodies, parse), source, cursor + 1, Reach(cursor, high), parse)
  {
    ViewApply(all[cursor], bodies, source, parse);
    DueNext(all, cursor, source, parse);
    if !Unaffected(Source(source), all, cursor, high) && !Concerns(Source(source), all[cursor]) {
      var i :| cursor <= i < high && Concerns(Source(source), all[i]);
      assert cursor + 1 <= i < Reach(cursor, high);
    }
  }

  /** Applying a change that the replay will meet is not noticed. */
  lemma ShowsAbsorbs(all: seq<DocumentChange>, bodies: seq<Body>, source: string, base: nat, cursor: nat, high: nat,
                     parse: Parser)
    requires Shows(all, bodies, source, base, high, parse) && base <= cursor < |all|
    ensures Shows(all, Apply(all[cursor], bodies, parse), source, base, Reach(cursor, high), parse)
  {
    ViewApply(all[cursor], bodies, source, parse);
  }

  lemma ShowsJumpsBack(all: seq<DocumentChange>, bodies: seq<Body>, source: string, cursor: nat, high: nat,
                       target: nat, parse: Parser)
    requires Shows(all, bodies, source, cursor, high, parse) && target <= cursor
    ensures Shows(all, bodies, source, target, high, parse)
  {
    if Unaffected(Source(source), all, target, high) {
      DueStays(all, target, cursor, source, parse);
    }
  }

  /** One change is applied and then the cursor goes back. */
  lemma ShowsRepeats(all: seq<DocumentChange>, bodies: seq<Body>, source: string, cursor: nat, high: nat,
                     target: nat, parse: Parser)
    requires Shows(all, bodies, source, cursor, high, parse) && target <= cursor < |all|
    ensures Shows(all, Apply(all[cursor], bodies, parse), source, target, Reach(cursor, high), parse)
  {
    hide Shows, Apply;
    ShowsAdvances(all, bodies, source, cursor, high, parse);
    ShowsJumpsBack(all, Apply(all[cursor], bodies, parse), source, cursor + 1, Reach(cursor, high), target, parse);
  }

  /** Passing over changes that do not touch the source. */
  lemma ShowsPasses(all: seq<DocumentChange>, bodies: seq<Body>, source: string, cursor: nat, high: nat,
                    target: nat, parse: Parser)
    requires Shows(all, bodies, source, cursor, high, parse) && cursor <= target <= |all|
    requires Unaffected(Source(source), all, cursor, target)
    ensures Shows(all, bodies, source, target, high, parse)
  {
    DueStays(all, cursor, target, source, parse);
  }

  // -------------------------------------------------------------- what every step keeps

  /** Replaying from the committed offset leaves the source right; so it does from the cursor unless it was skipped. */
  ghost predicate SourceRecoverable(env: Env, source: string, s: State) {
    && Placed(env, s)
    && Shows(All(env), s.bodies, source, Base(env, s), s.high, env.parse)
    && (Clean(env, Source(source), s) ==>
          Shows(All(env), s.bodies, source, Cursor(env.log, s), s.high, env.parse))
  }

  lemma SourceApplyStep(env: Env, source: string, s: State)
    requires Enabled(env, s, Applied) && SourceRecoverable(env, source, s)
    ensures SourceRecoverable(env, source, Step(env, s, Applied))
  {
    hide Shows, Clean, Step;
    CursorAtNextChange(env, s, Applied);
    ApplyMoves(env, Source(source), s);
    ShowsAbsorbs(All(env), s.bodies, source, Base(env, s), Cursor(env.log, s), s.high, env.parse);
    if Clean(env, Source(source), s) {
      ShowsAdvances(All(env), s.bodies, source, Cursor(env.log, s), s.high, env.parse);
    }
  }

  lemma SourceFailureStep(env: Env, source: string, s: State, e: Event)
    requires Enabled(env, s, e) && e.ApplyFails? && SourceRecoverable(env, source, s)
    ensures SourceRecoverable(env, source, Step(env, s, e))
  {
    hide Shows, Clean, Step, All, Apply;
    var all, cursor, t := All(env), Cursor(env.log, s), Step(env, s, e);
    CursorAtNextChange(env, s, e);
    FailureMoves(env, Source(source), s, e);
    if e.effective {
      ShowsAbsorbs(all, s.bodies, source, Base(env, s), cursor, s.high, env.parse);
      if Clean(env, Source(source), s) {
        ShowsRepeats(all, s.bodies, source, cursor, s.high, Cursor(env.log, t), env.parse);
      }
    } else if Clean(env, Source(source), s) {
      ShowsJumpsBack(all, s.bodies, source, cursor, s.high, Cursor(env.log, t), env.parse);
    }
  }

  lemma SourceQuietStep(env: Env, source: string, s: State, e: Event)
    requires Enabled(env, s, e) && SourceRecoverable(env, source, s) && !Abandoning(env, Source(source), s, e)
    requires e != Applied && !e.ApplyFails? && e != Crash && e != Commit(true)
    ensures SourceRecoverable(env, source, Step(env, s, e))
  {
    hide Shows, Clean, Step, Abandoning, Unaffected;
    QuietMoves(env, Source(source), s, e);
    var t := Step(env, s, e);
    if Clean(env, Source(source), t) {
      ShowsPasses(All(env), s.bodies, source, Cursor(env.log, s), s.high, Cursor(env.log, t), env.parse);
    }
  }

  lemma SourceRecoverStep(env: Env, source: string, s: State, e: Event)
    requires Enabled(env, s, e) && SourceRecoverable(env, source, s) && !Abandoning(env, Source(source), s, e)
    ensures SourceRecoverable(env, source, Step(env, s, e))
  {
    hide Shows, Clean, Step, Abandoning, Placed;
    if e == Applied {
      SourceApplyStep(env, source, s);
    } else if e.ApplyFails? {
      SourceFailureStep(env, source, s, e);
    } else if e == Crash || e == Commit(true) {
      CommitMoves(env, Source(source), s, e);
    } else {
      SourceQuietStep(env, source, s, e);
    }
  }

  lemma {:induction false} SourceAlwaysRecoverable(env: Env, source: string, es: seq<Event>)
    requires Legal(env, es) && !Abandons(env, Source(source), es)
    ensures SourceRecoverable(env, source, After(env, es))
  {
    if es == [] {
      assert All(env)[..0] == [];
    } else {
      SourceAlwaysRecoverable(env, source, Before(es));
      SourceRecoverStep(env, source, After(env, Before(es)), Last(es));
    }
  }

  // -------------------------------------------------------------- convergence, source by source

  /**
   At any moment of any run that abandons no record touching the source, and
   skips none now: its chunks are what the changes before the cursor leave when
   each is applied once, unless a change that the consumer has applied before and
   will meet again touches it. Abandoned records of other sources do not matter.
   */
  lemma SourceConvergence(env: Env, source: string, es: seq<Event>)
    requires Legal(env, es) && !Abandons(env, Source(source), es) && Clean(env, Source(source), After(env, es))
    ensures var s := After(env, es);
            && s.position <= |env.log| && (s.phase != Idle ==> s.position > 0)
            && var cursor := Cursor(env.log, s);
               && cursor <= |All(env)| && s.high <= |All(env)|
               && ((forall i :: cursor <= i < s.high ==> source !in Touched(All(env)[i])) ==>
                     View(s.bodies, source) == View(ApplyAll(All(env)[..cursor], [], env.parse), source))
  {
    SourceAlwaysRecoverable(env, source, es);
  }

  /** So a consumer that has read the whole log has the source as if each change had been applied once. */
  lemma DrainedSourceIsIndexedOnce(env: Env, source: string, es: seq<Event>)
    requires Legal(env, es) && !Abandons(env, Source(source), es) && Clean(env, Source(source), After(env, es))
    requires After(env, es).phase == Idle && After(env, es).position == |env.log|
    ensures View(After(env, es).bodies, source) == View(ApplyAll(All(env), [], env.parse), source)
  {
    SourceConvergence(env, source, es);
    assert All(env)[..|All(env)|] == All(env);
  }
}
