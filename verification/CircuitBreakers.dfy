/**
 The gateway's circuit breaker (gateway/internal/circuit.go), against a
 reference semantics on the history of its calls.
 */
module CircuitBreakers {
  import opened Options

  /** A call, with the time at which it happens. */
  datatype Call = Allow(time: int) | Success | Failure(time: int)

  datatype Config = Config(threshold: int, resetTimeout: int)

  /** Failures are counted before the comparison, so a threshold below 1 acts as 1. */
  function Limit(c: Config): nat {
    if c.threshold < 1 then 1 else c.threshold
  }

  // ------------------------------------------------- reference semantics on histories

  /** The failures since the last call that cleared the breaker. */
  function Failures(h: seq<Call>, c: Config): nat
    decreases |h|, 0
  {
    if h == [] then 0
    else if Clears(h, |h| - 1, c) then 0
    else Failures(h[..|h| - 1], c) + (if h[|h| - 1].Failure? then 1 else 0)
  }

  /** The time of the latest failure. */
  function LatestFailure(h: seq<Call>): Option<int> {
    if h == [] then None
    else if h[|h| - 1].Failure? then Some(h[|h| - 1].time)
    else LatestFailure(h[..|h| - 1])
  }

  /** After this history, a request at time `t` is refused: enough failures, the latest one recent. */
  predicate Refuses(h: seq<Call>, t: int, c: Config)
    decreases |h|, 1
  {
    && Failures(h, c) >= Limit(c)
    && LatestFailure(h).Some?
    && t - LatestFailure(h).value < c.resetTimeout
  }

  /** Call `i` clears the breaker: a success, or a request let through after the timeout. */
  predicate Clears(h: seq<Call>, i: nat, c: Config)
    requires i < |h|
    decreases i, 2
  {
    || h[i].Success?
    || (h[i].Allow? && Failures(h[..i], c) >= Limit(c) && !Refuses(h[..i], h[i].time, c))
  }

  /** The breaker itself: two fields, three methods under one lock. */
  class CircuitBreaker {
    const config: Config
    var failures: int
    /** The zero time is `None`. */
    var openedAt: Option<int>
    ghost var history: seq<Call>

    /**
     The fields say exactly what the history says: the failure count, and the
     time of the latest failure precisely when the count has reached the limit.
     */
    ghost predicate Valid()
      reads this
    {
      && failures == Failures(history, config)
      && openedAt == if Failures(history, config) >= Limit(config) then LatestFailure(history) else None
    }

    constructor (threshold: int, resetTimeout: int)
      ensures Valid() && history == [] && config == Config(threshold, resetTimeout)
    {
      config := Config(threshold, resetTimeout);
      failures, openedAt, history := 0, None, [];
    }

    /** `Allow`: refuses exactly when the reference semantics does. */
    method Allow(now: int) returns (allowed: bool)
      requires Valid()
      modifies this
      ensures Valid() && history == old(history) + [Call.Allow(now)]
      ensures allowed <==> !Refuses(old(history), now, config)
      ensures openedAt == if allowed then None else old(openedAt)
    {
      CountNeedsFailure(history, config);
      AllowClears(history, now, config);
      history := history + [Call.Allow(now)];
      if openedAt.None? {
        return true;
      }
      if now - openedAt.value >= config.resetTimeout {
        openedAt := None;
        failures := 0;
        return true;
      }
      return false;
    }

    /** `Success`. */
    method Success()
      requires Valid()
      modifies this
      ensures Valid() && history == old(history) + [Call.Success]
      ensures openedAt == None && failures == 0
    {
      SnocHistory(history, Call.Success, config);
      history := history + [Call.Success];
      failures := 0;
      openedAt := None;
    }

    /** `Failure`. */
    method Failure(now: int)
      requires Valid()
      modifies this
      ensures Valid() && history == old(history) + [Call.Failure(now)]
      ensures openedAt.Some? <==> failures >= Limit(config)
      ensures openedAt.Some? ==> openedAt.value == now
    {
      SnocHistory(history, Call.Failure(now), config);
      history := history + [Call.Failure(now)];
      failures := failures + 1;
      if failures >= config.threshold {
        openedAt := Some(now);
      }
    }
  }

  // --------------------------------------------------------------- the semantics unfolds

  lemma SnocHistory(h: seq<Call>, call: Call, c: Config)
    ensures var g := h + [call];
            && Failures(g, c) == (if Clears(g, |h|, c) then 0 else Failures(h, c) + (if call.Failure? then 1 else 0))
            && LatestFailure(g) == (if call.Failure? then Some(call.time) else LatestFailure(h))
            && (Clears(g, |h|, c) <==>
                  call.Success? || (call.Allow? && Failures(h, c) >= Limit(c) && !Refuses(h, call.time, c)))
  {
    var g := h + [call];
    assert g[..|h|] == h && g[|h|] == call;
  }

  lemma AllowClears(h: seq<Call>, now: int, c: Config)
    ensures var g := h + [Allow(now)];
            && LatestFailure(g) == LatestFailure(h)
            && Failures(g, c) == if Failures(h, c) >= Limit(c) && !Refuses(h, now, c) then 0 else Failures(h, c)
  {
    SnocHistory(h, Allow(now), c);
  }

  lemma {:induction false} CountNeedsFailure(h: seq<Call>, c: Config)
    ensures Failures(h, c) > 0 ==> LatestFailure(h).Some?
  {
    if h != [] {
      CountNeedsFailure(h[..|h| - 1], c);
    }
  }

  // -------------------------------------------------------------- what a refusal means

  function FailuresIn(h: seq<Call>, from: nat): nat
    requires from <= |h|
  {
    if from == |h| then 0
    else FailuresIn(h[..|h| - 1], from) + (if h[|h| - 1].Failure? then 1 else 0)
  }

  ghost predicate NoClearing(h: seq<Call>, from: nat, c: Config) {
    forall i :: from <= i < |h| ==> !Clears(h, i, c)
  }

  ghost predicate ClearingJustBefore(h: seq<Call>, from: nat, c: Config) {
    from == 0 || (from <= |h| && Clears(h, from - 1, c))
  }

  lemma ClearsInPrefix(h: seq<Call>, n: nat, i: nat, c: Config)
    requires i < n <= |h|
    ensures Clears(h[..n], i, c) <==> Clears(h, i, c)
  {
    assert h[..n][..i] == h[..i];
  }

  /** The count is the number of failures in the stretch after the last clearing call. */
  lemma {:induction false} CountIsSinceClearing(h: seq<Call>, from: nat, c: Config)
    requires from <= |h| && NoClearing(h, from, c) && ClearingJustBefore(h, from, c)
    ensures Failures(h, c) == FailuresIn(h, from)
  {
    if from < |h| {
      var n := |h| - 1;
      forall i | from <= i < n
        ensures !Clears(h[..n], i, c)
      {
        ClearsInPrefix(h, n, i, c);
      }
      if from > 0 {
        ClearsInPrefix(h, n, from - 1, c);
      }
      CountIsSinceClearing(h[..n], from, c);
    }
  }

  lemma {:induction false} LastClearing(h: seq<Call>, c: Config) returns (from: nat)
    ensures from <= |h| && NoClearing(h, from, c) && ClearingJustBefore(h, from, c)
  {
    if h == [] {
      from := 0;
    } else {
      var n := |h| - 1;
      if Clears(h, n, c) {
        from := |h|;
      } else {
        from := LastClearing(h[..n], c);
        forall i | from <= i < |h|
          ensures !Clears(h, i, c)
        {
          if i < n {
            ClearsInPrefix(h, n, i, c);
          }
        }
        if from > 0 {
          ClearsInPrefix(h, n, from - 1, c);
        }
      }
    }
  }

  /**
   Refusal, exactly: since the last success or expired probe there were at
   least as many failures as the limit, and the latest one is more recent than
   the reset timeout.
   */
  lemma RefusalExactly(h: seq<Call>, t: int, c: Config)
    ensures Refuses(h, t, c) <==>
            exists from: nat ::
              && from <= |h| && NoClearing(h, from, c) && ClearingJustBefore(h, from, c)
              && FailuresIn(h, from) >= Limit(c)
              && LatestFailure(h).Some? && t - LatestFailure(h).value < c.resetTimeout
  {
    var from := LastClearing(h, c);
    CountIsSinceClearing(h, from, c);
    forall f: nat | f <= |h| && NoClearing(h, f, c) && ClearingJustBefore(h, f, c)
      ensures Failures(h, c) == FailuresIn(h, f)
    {
      CountIsSinceClearing(h, f, c);
    }
  }

  predicate OnlyFailures(h: seq<Call>) {
    forall i :: 0 <= i < |h| ==> h[i].Failure?
  }

  lemma {:induction false} FailuresAddUp(h: seq<Call>, c: Config)
    requires OnlyFailures(h)
    ensures Failures(h, c) == |h|
    ensures h != [] ==> LatestFailure(h) == Some(h[|h| - 1].time)
  {
    if h != [] {
      FailuresAddUp(h[..|h| - 1], c);
    }
  }

  /** On a new breaker it takes as many failures as the threshold says, and at least one, to refuse. */
  lemma ThresholdOpens(h: seq<Call>, t: int, c: Config)
    requires OnlyFailures(h)
    ensures Refuses(h, t, c) <==> h != [] && |h| >= c.threshold && t < h[|h| - 1].time + c.resetTimeout
  {
    FailuresAddUp(h, c);
  }

  /** A refusal changes nothing, so a refusing breaker lets the first request after the timeout through. */
  lemma RefusalIsTransparent(h: seq<Call>, t: int, u: int, c: Config)
    requires Refuses(h, t, c)
    ensures Refuses(h + [Allow(t)], u, c) <==> Refuses(h, u, c)
    ensures u >= LatestFailure(h).value + c.resetTimeout ==> !Refuses(h + [Allow(t)], u, c)
  {
    AllowClears(h, t, c);
  }

  /** After a probe, the breaker refuses again only once the limit is reached from scratch. */
  lemma ProbeResetsCount(h: seq<Call>, t: int, later: seq<Call>, u: int, c: Config)
    requires Failures(h, c) >= Limit(c) && !Refuses(h, t, c)
    requires forall i :: 0 <= i < |later| ==> later[i].Failure?
    ensures Refuses(h + [Allow(t)] + later, u, c) <==>
            |later| >= Limit(c) && u - later[|later| - 1].time < c.resetTimeout
  {
    AllowClears(h, t, c);
    FailuresAccumulate(h + [Allow(t)], later, c);
  }

  lemma {:induction false} FailuresAccumulate(h: seq<Call>, later: seq<Call>, c: Config)
    requires forall i :: 0 <= i < |later| ==> later[i].Failure?
    ensures Failures(h + later, c) == Failures(h, c) + |later|
    ensures later != [] ==> LatestFailure(h + later) == Some(later[|later| - 1].time)
  {
    if later == [] {
      assert h + later == h;
    } else {
      var n := |later| - 1;
      FailuresAccumulate(h, later[..n], c);
      SnocHistory(h + later[..n], later[n], c);
      assert h + later == (h + later[..n]) + [later[n]];
    }
  }
}
