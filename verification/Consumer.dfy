/**
 The at-least-once consumer of one Kafka partition as a step machine: fetch,
 attempt, retry, dead letter, cumulative commit, crash with redelivery
 (sync-service/internal/service.go).
 */
module Consumer {
  import opened Options
  import opened Changes
  import opened DocumentIndex

  /** A Kafka record as the consumer sees it: what it decodes to, and whether a dead letter can embed it. */
  datatype Record = Record(outcome: Result<seq<DocumentChange>>, publishable: bool) {
    function Changes(): seq<DocumentChange> {
      if outcome.Ok? then outcome.value else []
    }
  }

  function RecordOf(p: Payload): Record {
    Record(Decoded(p), !p.Malformed?)
  }

  /** What stays fixed during a run. `retries` is at least 1 by configuration. */
  datatype Env = Env(log: seq<Record>, retries: nat, parse: Parser)

  /**
   Where the consumer is with the message it fetched last (offset `position - 1`):
   applying change `next` of attempt `attempt`, after a failed attempt, about to
   write to the dead-letter topic, or about to commit.
   */
  datatype Phase =
    | Idle
    | Trying(attempt: nat, next: nat)
    | Failed(attempt: nat)
    | GivenUp
    | Settled

  /**
   `position`, `committed`, `phase` and `bodies` are the system's own state.
   The rest is bookkeeping about the run: which offsets were completely applied
   or ignored, which are in the dead-letter topic, which had a failed
   dead-letter write since the last restart, and how many changes of the log
   have ever been applied.
   */
  datatype State = State(
    position: nat,
    committed: nat,
    phase: Phase,
    bodies: seq<Body>,
    handled: set<nat>,
    deadLettered: set<nat>,
    skipped: set<nat>,
    high: nat)

  datatype Event =
    | Fetch
    | Ignore
    | Reject
    | Applied
    | ApplyFails(effective: bool)
    | Complete
    | Retry
    | GiveUp
    | DeadLetter(ok: bool)
    | Commit(ok: bool)
    | Crash

  const START := State(0, 0, Idle, [], {}, {}, {}, 0)

  ghost predicate Enabled(env: Env, s: State, e: Event) {
    && s.position <= |env.log|
    && (s.phase != Idle ==> s.position > 0)
    && match e
       case Fetch => s.phase == Idle && s.position < |env.log|
       case Ignore => s.phase.Trying? && env.log[s.position - 1].outcome == Err(MessageIgnored)
       case Reject => s.phase.Trying? && env.log[s.position - 1].outcome.Err?
                      && env.log[s.position - 1].outcome != Err(MessageIgnored)
       case Applied => s.phase.Trying? && s.phase.next < |env.log[s.position - 1].Changes()|
       case ApplyFails(_) => s.phase.Trying? && s.phase.next < |env.log[s.position - 1].Changes()|
       case Complete => s.phase.Trying? && env.log[s.position - 1].outcome.Ok?
                        && s.phase.next == |env.log[s.position - 1].Changes()|
       case Retry => s.phase.Failed? && s.phase.attempt < env.retries
       case GiveUp => s.phase.Failed?
       // json.RawMessage refuses malformed bytes, so the record cannot be built
       case DeadLetter(ok) => s.phase == GivenUp && (ok ==> env.log[s.position - 1].publishable)
       case Commit(_) => s.phase == Settled
       case Crash => true
  }

  ghost function Step(env: Env, s: State, e: Event): State
    requires Enabled(env, s, e)
  {
    match e
    case Fetch => s.(position := s.position + 1, phase := Trying(1, 0))
    case Ignore => s.(phase := Settled, handled := s.handled + {s.position - 1})
    case Reject => s.(phase := Failed(s.phase.attempt))
    case Applied =>
      var c := env.log[s.position - 1].Changes()[s.phase.next];
      var applied := Cursor(env.log, s) + 1;
      s.(bodies := Apply(c, s.bodies, env.parse),
         phase := Trying(s.phase.attempt, s.phase.next + 1),
         high := if applied > s.high then applied else s.high)
    case ApplyFails(effective) =>
      var c := env.log[s.position - 1].Changes()[s.phase.next];
      var applied := Cursor(env.log, s) + 1;
      if effective then
        s.(bodies := Apply(c, s.bodies, env.parse),
           phase := Failed(s.phase.attempt),
           high := if applied > s.high then applied else s.high)
      else
        s.(phase := Failed(s.phase.attempt))
    case Complete => s.(phase := Settled, handled := s.handled + {s.position - 1})
    case Retry => s.(phase := Trying(s.phase.attempt + 1, 0))
    case GiveUp => s.(phase := GivenUp)
    case DeadLetter(ok) =>
      if ok then s.(phase := Settled, deadLettered := s.deadLettered + {s.position - 1})
      else s.(phase := Idle, skipped := s.skipped + {s.position - 1})
    case Commit(ok) => if ok then s.(phase := Idle, committed := s.position) else s.(phase := Idle)
    case Crash => s.(position := s.committed, phase := Idle, skipped := {})
  }

  /** The state after a run, or nothing if some event is not enabled where it happens. */
  ghost function Run(env: Env, es: seq<Event>): Option<State> {
    if es == [] then Some(START)
    else match Run(env, Before(es))
      case None => None
      case Some(s) => if Enabled(env, s, Last(es)) then Some(Step(env, s, Last(es))) else None
  }

  ghost predicate Legal(env: Env, es: seq<Event>) {
    Run(env, es).Some?
  }

  ghost function After(env: Env, es: seq<Event>): State
    requires Legal(env, es)
  {
    Run(env, es).value
  }

  /** The same run told by its states: each event is enabled in one state and leads to the next. */
  ghost predicate Follows(env: Env, states: seq<State>, es: seq<Event>) {
    && |states| == |es| + 1
    && states[0] == START
    && (forall i {:trigger es[i]} :: 0 <= i < |es| ==>
         Enabled(env, states[i], es[i]) && states[i + 1] == Step(env, states[i], es[i]))
  }

  lemma {:induction false} FollowingIsRunning(env: Env, states: seq<State>, es: seq<Event>)
    requires Follows(env, states, es)
    ensures Run(env, es) == Some(states[|es|])
  {
    if es != [] {
      var n := |es| - 1;
      assert Before(es) == es[..n] && es[n] == Last(es);
      assert forall i :: 0 <= i < n ==> es[..n][i] == es[i];
      FollowingIsRunning(env, states[..n + 1], Before(es));
    }
  }

  lemma FollowsSnoc(env: Env, states: seq<State>, es: seq<Event>, e: Event)
    requires Follows(env, states, es) && Enabled(env, states[|es|], e)
    ensures Follows(env, states + [Step(env, states[|es|], e)], es + [e])
  {
    var longer, more := states + [Step(env, states[|es|], e)], es + [e];
    forall i {:trigger more[i]} | 0 <= i < |more|
      ensures Enabled(env, longer[i], more[i]) && longer[i + 1] == Step(env, longer[i], more[i])
    {
      assert i < |es| ==> more[i] == es[i];
    }
  }

  function Before(es: seq<Event>): seq<Event>
    requires es != []
  {
    es[..|es| - 1]
  }

  function Last(es: seq<Event>): Event
    requires es != []
  {
    es[|es| - 1]
  }

  // ------------------------------------------------------------- commit safety

  predicate Accounted(s: State, offset: nat) {
    offset in s.handled || offset in s.deadLettered
  }

  /** Every offset below the committed one was applied, ignored or dead-lettered. */
  ghost predicate Safe(s: State) {
    forall o: nat :: o < s.committed ==> Accounted(s, o)
  }

  /** Offsets behind the read position are accounted for, skipped, or in hand. */
  ghost predicate Tracked(s: State) {
    && (if s.phase == Idle then s.committed <= s.position else s.committed < s.position)
    && (forall o: nat :: s.committed <= o < s.position ==>
         Accounted(s, o) || o in s.skipped || (s.phase != Idle && o == s.position - 1))
    && (s.phase == Settled ==> Accounted(s, s.position - 1))
    && (forall o :: o in s.skipped ==> o < s.position)
  }

  lemma {:induction false} AlwaysTracked(env: Env, es: seq<Event>)
    requires Legal(env, es)
    ensures Tracked(After(env, es))
  {
    if es != [] {
      AlwaysTracked(env, Before(es));
      TrackedStep(env, After(env, Before(es)), Last(es));
    }
  }

  lemma TrackedStep(env: Env, s: State, e: Event)
    requires Enabled(env, s, e) && Tracked(s)
    ensures Tracked(Step(env, s, e))
  {
  }

  /** A commit in this state would cover an offset that was neither applied nor dead-lettered. */
  ghost predicate Overrun(s: State) {
    exists o: nat :: o in s.skipped && o < s.position && !Accounted(s, o)
  }

  /** Somewhere in the run a commit succeeded where it should have been withheld. */
  ghost predicate Overruns(env: Env, es: seq<Event>)
    requires Legal(env, es)
  {
    && es != []
    && (Overruns(env, Before(es)) || (Last(es) == Commit(true) && Overrun(After(env, Before(es)))))
  }

  /** An offset lost by a commit stays lost: no restart reads below the committed offset. */
  lemma LossIsPermanent(env: Env, s: State, e: Event, o: nat)
    requires Enabled(env, s, e) && Tracked(s)
    requires o < s.committed && !Accounted(s, o)
    ensures var t := Step(env, s, e); o < t.committed && !Accounted(t, o)
  {
  }

  /** So it stays lost however the run goes on. */
  lemma {:induction false} LossIsForever(env: Env, es: seq<Event>, more: seq<Event>, o: nat)
    requires Legal(env, es) && Legal(env, es + more)
    requires o < After(env, es).committed && !Accounted(After(env, es), o)
    ensures o < After(env, es + more).committed && !Accounted(After(env, es + more), o)
  {
    if more == [] {
      assert es + more == es;
    } else {
      assert Before(es + more) == es + Before(more);
      LossIsForever(env, es, Before(more), o);
      AlwaysTracked(env, es + Before(more));
      LossIsPermanent(env, After(env, es + Before(more)), Last(es + more), o);
    }
  }

  lemma SettledMeansAccounted(s: State, o: nat)
    requires Tracked(s) && Safe(s) && s.phase == Settled && o < s.position
    ensures Accounted(s, o) || o in s.skipped
  {
  }

  /** One step keeps commit safety unless it is a commit that overruns. */
  lemma SafetyStep(env: Env, s: State, e: Event)
    requires Enabled(env, s, e) && Tracked(s)
    ensures Safe(Step(env, s, e)) <==> Safe(s) && !(e == Commit(true) && Overrun(s))
  {
    var t := Step(env, s, e);
    if !Safe(s) {
      var o: nat :| o < s.committed && !Accounted(s, o);
      LossIsPermanent(env, s, e, o);
    } else if e == Commit(true) {
      forall o: nat | o < t.committed && !Accounted(t, o)
        ensures Overrun(s)
      {
        SettledMeansAccounted(s, o);
        assert o in s.skipped && o < s.position && !Accounted(s, o);
      }
      if Overrun(s) {
        var o: nat :| o in s.skipped && o < s.position && !Accounted(s, o);
        assert o < t.committed && !Accounted(t, o);
      }
    } else {
      assert t.committed == s.committed;
      assert forall o: nat :: Accounted(s, o) ==> Accounted(t, o);
    }
  }

  /**
   Commit safety, exactly: every offset below the committed one is accounted for
   if and only if no commit overran a failed dead-letter write.
   */
  lemma {:induction false} CommitSafety(env: Env, es: seq<Event>)
    requires Legal(env, es)
    ensures Safe(After(env, es)) <==> !Overruns(env, es)
  {
    if es != [] {
      CommitSafety(env, Before(es));
      AlwaysTracked(env, Before(es));
      SafetyStep(env, After(env, Before(es)), Last(es));
    }
  }

  /** A dead-letter write fails at `i` and, with no restart in between, a commit succeeds at `j`. */
  predicate SkipThenCommit(es: seq<Event>) {
    exists i, j :: 0 <= i < j < |es| && es[i] == DeadLetter(false) && es[j] == Commit(true) && NoCrash(es, i, j)
  }

  predicate NoCrash(es: seq<Event>, i: int, j: int)
    requires 0 <= i <= j <= |es|
  {
    forall k :: i <= k < j ==> es[k] != Crash
  }

  lemma {:induction false} SkippedMeansFailedWrite(env: Env, es: seq<Event>)
    requires Legal(env, es) && After(env, es).skipped != {}
    ensures exists i :: 0 <= i < |es| && es[i] == DeadLetter(false) && NoCrash(es, i, |es|)
  {
    var b := Before(es);
    assert es == b + [Last(es)];
    if After(env, b).skipped != {} && Last(es) != Crash {
      SkippedMeansFailedWrite(env, b);
      var i :| 0 <= i < |b| && b[i] == DeadLetter(false) && NoCrash(b, i, |b|);
      assert es[i] == DeadLetter(false) && NoCrash(es, i, |es|);
    } else {
      assert NoCrash(es, |es| - 1, |es|);
    }
  }

  lemma {:induction false} OverrunMeansSkipThenCommit(env: Env, es: seq<Event>)
    requires Legal(env, es) && Overruns(env, es)
    ensures SkipThenCommit(es)
  {
    var b := Before(es);
    if Overruns(env, b) {
      OverrunMeansSkipThenCommit(env, b);
      SkipThenCommitExtends(b, es);
    } else {
      SkippedMeansFailedWrite(env, b);
      var i :| 0 <= i < |b| && b[i] == DeadLetter(false) && NoCrash(b, i, |b|);
      assert es[i] == DeadLetter(false) && es[|b|] == Commit(true) && NoCrash(es, i, |b|);
    }
  }

  lemma SkipThenCommitExtends(b: seq<Event>, es: seq<Event>)
    requires b <= es && SkipThenCommit(b)
    ensures SkipThenCommit(es)
  {
    var i, j :| 0 <= i < j < |b| && b[i] == DeadLetter(false) && b[j] == Commit(true) && NoCrash(b, i, j);
    assert es[i] == DeadLetter(false) && es[j] == Commit(true) && NoCrash(es, i, j);
  }

  /** The documented guarantee, with the proviso it needs. */
  lemma SafeWithoutSkipThenCommit(env: Env, es: seq<Event>)
    requires Legal(env, es) && !SkipThenCommit(es)
    ensures forall o: nat :: o < After(env, es).committed ==> Accounted(After(env, es), o)
  {
    if Overruns(env, es) {
      OverrunMeansSkipThenCommit(env, es);
    }
    CommitSafety(env, es);
  }

  /** A record of malformed bytes can never be accounted for, so a commit beyond it always loses it. */
  lemma {:induction false} MalformedIsNeverAccounted(env: Env, es: seq<Event>, o: nat)
    requires Legal(env, es) && o < |env.log| && env.log[o] == RecordOf(Malformed)
    ensures !Accounted(After(env, es), o)
    ensures Safe(After(env, es)) ==> After(env, es).committed <= o
  {
    if es != [] {
      MalformedIsNeverAccounted(env, Before(es), o);
      MalformedStep(env, After(env, Before(es)), Last(es), o);
    }
  }

  lemma MalformedStep(env: Env, s: State, e: Event, o: nat)
    requires Enabled(env, s, e) && o < |env.log| && env.log[o] == RecordOf(Malformed) && !Accounted(s, o)
    ensures !Accounted(Step(env, s, e), o)
  {
  }

  /** The run that the `continue` after a failed dead-letter write allows. */
  const SKIPPING_RUN: seq<Event> :=
    [Fetch, Reject, GiveUp, DeadLetter(false)] + [Fetch, Ignore, Commit(true)]

  lemma FirstIsSkipped(env: Env) returns (s: State)
    requires |env.log| >= 2 && env.log[0] == RecordOf(Malformed)
    ensures Run(env, SKIPPING_RUN[..4]) == Some(s)
    ensures s.position == 1 && s.phase == Idle && s.committed == 0 && s.handled == {} && s.deadLettered == {}
  {
    var r := SKIPPING_RUN;
    RunThen(env, [], START, Fetch);
    s := Step(env, START, Fetch);
    RunThen(env, [Fetch], s, Reject);
    s := Step(env, s, Reject);
    assert r[..2] == [Fetch] + [Reject] && r[..3] == r[..2] + [GiveUp];
    RunThen(env, r[..2], s, GiveUp);
    s := Step(env, s, GiveUp);
    RunThen(env, r[..3], s, DeadLetter(false));
    s := Step(env, s, DeadLetter(false));
    assert r[..4] == r[..3] + [DeadLetter(false)];
  }

  /** Two records suffice: a malformed one, then one that commits past it. */
  lemma SkippingRunLosesARecord(env: Env)
    requires |env.log| >= 2 && env.log[0] == RecordOf(Malformed) && env.log[1].outcome == Err(MessageIgnored)
    ensures Legal(env, SKIPPING_RUN)
    ensures After(env, SKIPPING_RUN).committed == 2 && !Accounted(After(env, SKIPPING_RUN), 0)
  {
    var r := SKIPPING_RUN;
    var s := FirstIsSkipped(env);
    RunThen(env, r[..4], s, Fetch);
    s := Step(env, s, Fetch);
    assert r[..5] == r[..4] + [Fetch];
    RunThen(env, r[..5], s, Ignore);
    s := Step(env, s, Ignore);
    assert r[..6] == r[..5] + [Ignore];
    RunThen(env, r[..6], s, Commit(true));
    assert r == r[..6] + [Commit(true)];
  }

  lemma RunThen(env: Env, es: seq<Event>, s: State, e: Event)
    requires Run(env, es) == Some(s) && Enabled(env, s, e)
    ensures Run(env, es + [e]) == Some(Step(env, s, e))
  {
    assert Before(es + [e]) == es;
  }

  // -------------------------------------------------------- positions in the log

  /** The changes of the first `n` records, in order. */
  function Flat(log: seq<Record>, n: nat): seq<DocumentChange>
    requires n <= |log|
  {
    if n == 0 then [] else Flat(log, n - 1) + log[n - 1].Changes()
  }

  /** How many changes of the log precede the one that the consumer will apply next. */
  function Cursor(log: seq<Record>, s: State): nat
    requires s.position <= |log| && (s.phase != Idle ==> s.position > 0)
  {
    match s.phase
    case Trying(_, n) => |Flat(log, s.position - 1)| + n
    case Failed(_) => |Flat(log, s.position - 1)|
    case _ => |Flat(log, s.position)|
  }

  lemma {:induction false} FlatPrefix(log: seq<Record>, m: nat, n: nat)
    requires m <= n <= |log|
    ensures |Flat(log, m)| <= |Flat(log, n)| && Flat(log, n)[..|Flat(log, m)|] == Flat(log, m)
  {
    if m < n {
      FlatPrefix(log, m, n - 1);
      assert Flat(log, n)[..|Flat(log, m)|] == Flat(log, n - 1)[..|Flat(log, m)|];
    }
  }

  lemma FlatAt(log: seq<Record>, o: nat, k: nat)
    requires o < |log| && k < |log[o].Changes()|
    ensures |Flat(log, o)| + k < |Flat(log, |log|)|
    ensures Flat(log, |log|)[|Flat(log, o)| + k] == log[o].Changes()[k]
  {
    FlatPrefix(log, o + 1, |log|);
    assert Flat(log, o + 1)[|Flat(log, o)| + k] == log[o].Changes()[k];
    assert Flat(log, |log|)[..|Flat(log, o + 1)|][|Flat(log, o)| + k] == Flat(log, |log|)[|Flat(log, o)| + k];
  }
}
