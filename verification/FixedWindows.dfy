/**
 The backend's fixed-window limiter (backend/services/cache_service.py
 `check_rate_limit`): one counter per client that expires a minute after its
 first increment. Increment and expiry are two separate commands.
 */
module FixedWindows {
  import opened Options
  import opened SlidingWindows

  /** Admissions with the start of the counter they were counted under. */
  ghost predicate Windowed(admitted: seq<int>, starts: seq<int>, limit: nat, window: int) {
    && |admitted| == |starts|
    && NonDecreasing(admitted)
    && (forall i :: 0 <= i < |starts| ==> starts[i] <= admitted[i])
    && (forall i: nat, j: nat :: Separate(starts, i, j, window))
    && (forall i: nat :: FewShare(starts, i, limit))
    && (forall i: nat :: FirstStarts(admitted, starts, i))
  }

  /** Two admissions share a counter, or the later counter starts after the earlier one has expired. */
  predicate Separate(starts: seq<int>, i: nat, j: nat, window: int) {
    i < j < |starts| ==> starts[i] == starts[j] || starts[i] + window < starts[j]
  }

  /** At most `limit` consecutive admissions share a counter. */
  predicate FewShare(starts: seq<int>, i: nat, limit: nat) {
    i + limit < |starts| ==> starts[i] != starts[i + limit]
  }

  /** The first admission under a counter is the request that started it. */
  predicate FirstStarts(admitted: seq<int>, starts: seq<int>, i: nat) {
    i < |starts| <= |admitted| && (i == 0 || starts[i - 1] != starts[i]) ==> admitted[i] == starts[i]
  }

  lemma {:induction false} FirstUnderSameCounter(admitted: seq<int>, starts: seq<int>, limit: nat, window: int,
                                                 m: nat) returns (f: nat)
    requires Windowed(admitted, starts, limit, window) && m < |starts|
    ensures f <= m && starts[f] == starts[m] == admitted[f]
  {
    f := m;
    if m > 0 && starts[m - 1] == starts[m] {
      f := FirstUnderSameCounter(admitted, starts, limit, window, m - 1);
    } else {
      assert FirstStarts(admitted, starts, m);
    }
  }

  /**
   Any 2 * limit consecutive admissions span more than a window: an interval
   that reaches two counters misses the first admission of the earlier one.
   */
  lemma WindowsOverlapAtMostTwice(admitted: seq<int>, starts: seq<int>, limit: nat, window: int)
    requires Windowed(admitted, starts, limit, window) && limit >= 1 && window > 0
    ensures Spaced(admitted, 2 * limit - 1, window)
  {
    var span := 2 * limit - 1;
    forall a: nat
      ensures SpacedAt(admitted, a, span, window)
    {
      var b := a + span;
      if b < |admitted| {
        if admitted[a] == starts[a] {
          assert FewShare(starts, a, limit);
          assert Separate(starts, a, a + limit, window) && Separate(starts, a + limit, b, window);
        } else {
          LaterCounterSpans(admitted, starts, limit, window, a);
        }
      }
    }
  }

  /** The case of an admission that is not the first under its counter. */
  lemma LaterCounterSpans(admitted: seq<int>, starts: seq<int>, limit: nat, window: int, a: nat)
    requires Windowed(admitted, starts, limit, window) && limit >= 1 && window > 0
    requires a + (2 * limit - 1) < |admitted| && admitted[a] != starts[a]
    ensures admitted[a + (2 * limit - 1)] - admitted[a] >= window
  {
    assert FirstStarts(admitted, starts, a);
    var m := a - 1 + limit;
    assert FewShare(starts, a - 1, limit) && FewShare(starts, m, limit);
    assert Separate(starts, a - 1, m, window) && Separate(starts, m, m + limit, window);
    var f := FirstUnderSameCounter(admitted, starts, limit, window, m);
    assert f > a by {
      assert Separate(starts, f, a, window);
    }
    assert InOrder(admitted, a, f);
  }

  /** Everything about earlier admissions when a counter that started at `start` has let in the last `own` of them. */
  ghost predicate Tallied(admitted: seq<int>, starts: seq<int>, limit: nat, window: int, start: int, own: nat) {
    && Windowed(admitted, starts, limit, window)
    && own <= |starts|
    && (forall i :: 0 <= i < |starts| - own ==> starts[i] + window < start)
    && (forall i :: |starts| - own <= i < |starts| ==> starts[i] == start)
  }

  lemma AdmissionIsTallied(admitted: seq<int>, starts: seq<int>, limit: nat, window: int, start: int, own: nat,
                           now: int)
    requires Tallied(admitted, starts, limit, window, start, own) && own < limit && start <= now && window > 0
    requires own == 0 ==> start == now
    requires forall i :: 0 <= i < |admitted| ==> admitted[i] <= now
    ensures Tallied(admitted + [now], starts + [start], limit, window, start, own + 1)
  {
    var a, s := admitted + [now], starts + [start];
    forall i: nat, j: nat
      ensures InOrder(a, i, j) && Separate(s, i, j, window)
    {
      assert InOrder(admitted, i, j) && Separate(starts, i, j, window);
    }
    forall i: nat
      ensures FewShare(s, i, limit) && FirstStarts(a, s, i)
    {
      assert FewShare(starts, i, limit) && FirstStarts(admitted, starts, i);
      assert i < |starts| ==> s[i] == starts[i];
    }
  }

  /** Every earlier counter has expired. */
  ghost predicate Closed(admitted: seq<int>, starts: seq<int>, limit: nat, window: int, now: int) {
    && Windowed(admitted, starts, limit, window)
    && forall i :: 0 <= i < |starts| ==> starts[i] + window < now
  }

  /** A counter that has let in nothing yet may as well start later. */
  lemma NothingTallied(admitted: seq<int>, starts: seq<int>, limit: nat, window: int, start: int, now: int)
    requires Closed(admitted, starts, limit, window, start) || Tallied(admitted, starts, limit, window, start, 0)
    requires start <= now
    ensures Tallied(admitted, starts, limit, window, now, 0)
  {
  }

  /** What is left at `now` of a counter with this expiry. */
  function Kept(count: nat, expiresAt: Option<int>, now: int): nat {
    if expiresAt.Some? && now > expiresAt.value then 0 else count
  }

  /** The client's key: a counter, and when it vanishes (`None`: never). */
  class Counter {
    const limit: nat
    const window: int
    var count: nat
    var expiresAt: Option<int>
    /**
     The requests let in by an answer of Redis, and the starts of their counters.
     Of these, the present counter let in the last `own`, and it started at `start`:
     when it was created, or, if the reply to that was lost, by the first of them.
     */
    ghost var admitted: seq<int>
    ghost var starts: seq<int>
    ghost var start: int
    ghost var own: nat
    ghost var clock: int

    ghost predicate Valid()
      reads this
    {
      && limit >= 1 && window > 0
      && (forall i :: 0 <= i < |admitted| ==> admitted[i] <= clock)
      && own <= count && own <= limit
      && (count == 0 ==> Closed(admitted, starts, limit, window, clock))
      && (count > 0 ==> start <= clock && Tallied(admitted, starts, limit, window, start, own))
      && (expiresAt.Some? ==> own > 0 && expiresAt.value == start + window)
    }

    /** The expiry was never set: this counter never vanishes. */
    predicate Stuck()
      reads this
    {
      count > 0 && expiresAt.None?
    }

    constructor (limit: nat, window: int)
      requires limit >= 1 && window > 0
      ensures Valid() && admitted == [] && count == 0 && clock == 0
      ensures this.limit == limit && this.window == window
    {
      this.limit, this.window := limit, window;
      count, expiresAt, admitted, starts, start, own, clock := 0, None, [], [], 0, 0, 0;
    }

    /** The key's view at `now`: it has vanished if its expiry has passed. */
    method Refresh(now: int)
      requires Valid() && now >= clock
      modifies this
      ensures Valid() && clock == now && admitted == old(admitted)
      ensures old(Stuck()) ==> Stuck() && count == old(count)
      ensures count == Kept(old(count), old(expiresAt), now) && starts == old(starts)
      ensures expiresAt == if old(expiresAt.Some? && now > expiresAt.value) then None else old(expiresAt)
    {
      if expiresAt.Some? && now > expiresAt.value {
        count, expiresAt, own := 0, None, 0;
      }
      clock := now;
    }

    /** The increment, which Redis carries out whether or not the reply arrives. */
    method Increment(now: int)
      requires Valid() && now >= clock
      modifies this
      ensures Valid() && clock == now && admitted == old(admitted) && starts == old(starts)
      ensures own < count && (own == 0 ==> start == now)
      ensures count == Kept(old(count), old(expiresAt), now) + 1
      ensures expiresAt == if count == 1 then None else old(expiresAt)
    {
      hide Windowed, Tallied, Closed;
      Refresh(now);
      if own == 0 {
        NothingTallied(admitted, starts, limit, window, if count == 0 then clock else start, now);
        start := now;
      }
      count := count + 1;
    }

    /** The answered request is let in. */
    ghost method Admit()
      requires Valid() && own < count <= limit && (own == 0 ==> start == clock)
      modifies this`admitted, this`starts, this`own
      ensures Valid() && admitted == old(admitted) + [clock] && own == old(own) + 1
    {
      AdmissionIsTallied(admitted, starts, limit, window, start, own, clock);
      hide Windowed, Tallied, Closed;
      admitted, starts, own := admitted + [clock], starts + [start], own + 1;
    }

    /**
     `check_rate_limit`. Redis may be out of reach, or count the request and lose
     the reply, or count and answer it; and setting the expiry may fail. Whatever
     fails, the request passes. The expiry is set by the answer 1 alone, so losing
     that answer or failing then leaves a counter that will never vanish.
     */
    method CheckRateLimit(now: int, ran: bool, replied: bool, expires: bool) returns (allowed: bool)
      requires Valid() && now >= clock
      modifies this
      ensures Valid()
      ensures !(ran && replied) ==> allowed && admitted == old(admitted)
      ensures ran && replied ==> admitted == if allowed then old(admitted) + [now] else old(admitted)
      ensures !ran ==> count == old(count) && expiresAt == old(expiresAt) && clock == old(clock)
      ensures ran ==>
                var kept := Kept(old(count), old(expiresAt), now);
                && clock == now && count == kept + 1
                && (replied ==> (allowed <==> kept < limit))
                && expiresAt == (if kept > 0 then old(expiresAt)
                                 else if replied && expires then Some(now + window) else None)
                && (Stuck() <==> old(Stuck()) || (kept == 0 && !(replied && expires)))
      ensures ran && replied && old(Stuck()) && old(count) >= limit ==> !allowed && Stuck() && count >= limit
      ensures forall t :: InWindow(admitted, t, window) <= 2 * limit - 1
    {
      allowed := true;
      if ran {
        Increment(now);
        if replied {
          allowed := count <= limit;
          if allowed {
            Admit();
          }
          if count == 1 && expires {
            expiresAt := Some(now + window);
          }
        }
      }
      EveryInterval();
    }

    /** Any interval one window long admits at most `2 * limit - 1` requests. */
    lemma EveryInterval()
      requires Valid()
      ensures forall t :: InWindow(admitted, t, window) <= 2 * limit - 1
    {
      WindowsOverlapAtMostTwice(admitted, starts, limit, window);
      forall t
        ensures InWindow(admitted, t, window) <= 2 * limit - 1
      {
        SpacedBoundsEveryWindow(admitted, 2 * limit - 1, window, t);
      }
    }
  }

  /** The bound is attained, whatever the limit: one early request, then a burst on each side of the expiry. */
  method BurstReachesTheBound(limit: nat, window: int) returns (c: Counter)
    requires limit >= 1 && window > 1
    ensures c.Valid() && c.limit == limit && c.window == window
    ensures InWindow(c.admitted, window + 1, window) == 2 * limit - 1
  {
    hide Windowed, Tallied, Closed;
    c := new Counter(limit, window);
    var allowed := c.CheckRateLimit(0, true, true, true);
    for i := 1 to limit
      invariant fresh(c) && c.Valid() && c.limit == limit && c.window == window
      invariant c.count == i && c.expiresAt == Some(window) && 0 <= c.clock <= window
      invariant |c.admitted| == i && c.admitted[0] == 0
      invariant forall j :: 1 <= j < i ==> c.admitted[j] == window
    {
      allowed := c.CheckRateLimit(window, true, true, true);
    }
    for i := 0 to limit
      invariant fresh(c) && c.Valid() && c.limit == limit && c.window == window
      invariant if i == 0 then c.count == limit && c.expiresAt == Some(window) && 0 <= c.clock <= window
                else c.count == i && c.expiresAt == Some(window + 1 + window) && c.clock == window + 1
      invariant |c.admitted| == limit + i && c.admitted[0] == 0
      invariant forall j :: 1 <= j < limit ==> c.admitted[j] == window
      invariant forall j :: limit <= j < limit + i ==> c.admitted[j] == window + 1
    {
      allowed := c.CheckRateLimit(window + 1, true, true, true);
    }
    CountBetweenCuts(c.admitted, 1, window + 1, 1, 2 * limit);
  }
}
