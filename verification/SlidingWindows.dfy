/**
 The gateway's sliding-window limiter (gateway/internal/server.go
 `slidingWindowScript`, `allowRate`): a Redis sorted set per client, trimmed,
 counted and extended by one atomic script. Times are milliseconds of one
 clock that does not run backwards.
 */
module SlidingWindows {
  import opened Options

  // ------------------------------------------------------------ times of admissions

  ghost predicate NonDecreasing(ts: seq<int>) {
    forall i: nat, j: nat :: InOrder(ts, i, j)
  }

  predicate InOrder(ts: seq<int>, i: nat, j: nat) {
    i < j < |ts| ==> ts[i] <= ts[j]
  }

  /** How many of the times lie in (lo, hi]. */
  function CountIn(ts: seq<int>, lo: int, hi: int): nat {
    if ts == [] then 0
    else CountIn(ts[..|ts| - 1], lo, hi) + (if lo < ts[|ts| - 1] <= hi then 1 else 0)
  }

  /** How many of the times lie in the window that ends at `t`. */
  function InWindow(ts: seq<int>, t: int, window: int): nat {
    CountIn(ts, t - window, t)
  }

  /** The admissions of the window that ends at `t`: later than `t - window`, and not later than `t`. */
  function Recent(ts: seq<int>, t: int, window: int): set<nat> {
    set i: nat | i < |ts| && ts[i] - t <= 0 && t - ts[i] < window
  }

  lemma {:induction false} InWindowExactly(ts: seq<int>, t: int, window: int)
    ensures InWindow(ts, t, window) == |Recent(ts, t, window)|
  {
    if ts != [] {
      var n := |ts| - 1;
      InWindowExactly(ts[..n], t, window);
      assert Recent(ts, t, window)
             == Recent(ts[..n], t, window) + if ts[n] - t <= 0 && t - ts[n] < window then {n} else {};
    }
  }

  /** The first `n` times are at most `x`, the rest are above. */
  ghost predicate CutAt(ts: seq<int>, x: int, n: nat) {
    && n <= |ts|
    && (forall i :: 0 <= i < n ==> ts[i] <= x)
    && (forall i :: n <= i < |ts| ==> ts[i] > x)
  }

  /** Any `limit + 1` consecutive admissions span at least a window. */
  ghost predicate Spaced(ts: seq<int>, limit: nat, window: int) {
    forall i: nat :: SpacedAt(ts, i, limit, window)
  }

  predicate SpacedAt(ts: seq<int>, i: nat, limit: nat, window: int) {
    i + limit < |ts| ==> ts[i + limit] - ts[i] >= window
  }

  /** The times in (lo, hi] of a list cut at both ends are those between the cuts. */
  lemma {:induction false} CountBetweenCuts(ts: seq<int>, lo: int, hi: int, a: nat, b: nat)
    requires a <= b && CutAt(ts, lo, a) && CutAt(ts, hi, b)
    ensures CountIn(ts, lo, hi) == b - a
  {
    if ts != [] {
      var n := |ts| - 1;
      CountBetweenCuts(ts[..n], lo, hi, if a < n then a else n, if b < n then b else n);
    }
  }

  lemma {:induction false} CutExists(ts: seq<int>, x: int) returns (n: nat)
    requires NonDecreasing(ts)
    ensures CutAt(ts, x, n)
  {
    if ts == [] || ts[|ts| - 1] <= x {
      n := |ts|;
      forall i | 0 <= i < |ts|
        ensures ts[i] <= x
      {
        assert InOrder(ts, i, |ts| - 1);
      }
    } else {
      var init := ts[..|ts| - 1];
      forall i: nat, j: nat
        ensures InOrder(init, i, j)
      {
        assert InOrder(ts, i, j);
      }
      n := CutExists(init, x);
      assert forall i :: 0 <= i < |init| ==> init[i] == ts[i];
    }
  }

  /** Spacing bounds every interval of one window, wherever it ends. */
  lemma SpacedBoundsEveryWindow(ts: seq<int>, limit: nat, window: int, t: int)
    requires NonDecreasing(ts) && Spaced(ts, limit, window) && window > 0
    requires limit == 0 ==> ts == []
    ensures InWindow(ts, t, window) <= limit
  {
    var a := CutExists(ts, t - window);
    var b := CutExists(ts, t);
    assert a <= b by {
      assert b < |ts| ==> ts[b] > t - window;
    }
    CountBetweenCuts(ts, t - window, t, a, b);
    assert SpacedAt(ts, a, limit, window);
  }

  // ------------------------------------------------------------------- the sorted set

  /** A member of the sorted set with its score; the set is listed in the order of insertion. */
  datatype Entry = Entry(score: int, member: string)

  function Scores(entries: seq<Entry>): (r: seq<int>)
    ensures |r| == |entries| && forall i :: 0 <= i < |r| ==> r[i] == entries[i].score
  {
    seq(|entries|, i requires 0 <= i < |entries| => entries[i].score)
  }

  /** ZREMRANGEBYSCORE key 0 horizon. */
  function Trimmed(entries: seq<Entry>, horizon: int): seq<Entry> {
    if entries == [] then []
    else (if 0 <= entries[0].score <= horizon then [] else [entries[0]]) + Trimmed(entries[1..], horizon)
  }

  predicate HasMember(entries: seq<Entry>, member: string) {
    exists i :: 0 <= i < |entries| && entries[i].member == member
  }

  /** On scores cut at the horizon, trimming drops exactly the early ones. */
  lemma {:induction false} TrimDropsEarly(entries: seq<Entry>, horizon: int, n: nat)
    requires CutAt(Scores(entries), horizon, n) && forall i :: 0 <= i < |entries| ==> entries[i].score >= 0
    ensures Trimmed(entries, horizon) == entries[n..]
  {
    if entries != [] {
      assert Scores(entries)[0] == entries[0].score;
      assert Scores(entries[1..]) == Scores(entries)[1..];
      TrimDropsEarly(entries[1..], horizon, if n == 0 then 0 else n - 1);
    }
  }

  // ------------------------------------------------------------ what every call keeps

  /** The set holds the admissions of the last window (all but the first `gone`), and admissions are spaced. */
  ghost predicate Consistent(entries: seq<Entry>, admitted: seq<int>, gone: nat, clock: int, limit: nat, window: int) {
    && NonDecreasing(admitted)
    && (forall i :: 0 <= i < |admitted| ==> 0 <= admitted[i] <= clock)
    && CutAt(admitted, clock - window, gone)
    && Scores(entries) == admitted[gone..]
    && Spaced(admitted, limit, window)
    && (limit == 0 ==> admitted == [])
  }

  lemma TrimIsConsistent(entries: seq<Entry>, admitted: seq<int>, gone: nat, clock: int, now: int, limit: nat,
                         window: int)
    returns (later: nat)
    requires Consistent(entries, admitted, gone, clock, limit, window) && clock <= now
    ensures Consistent(Trimmed(entries, now - window), admitted, later, now, limit, window)
  {
    later := CutExists(admitted, now - window);
    assert gone <= later by {
      assert later < |admitted| ==> admitted[later] > clock - window;
    }
    forall i | 0 <= i < |entries|
      ensures entries[i].score == admitted[gone + i]
    {
      assert Scores(entries)[i] == admitted[gone..][i];
    }
    TrimDropsEarly(entries, now - window, later - gone);
    assert Scores(entries[later - gone..]) == admitted[later..];
  }

  /** Once the key has expired, trimming would have emptied the set as well. */
  lemma ExpiryIsConsistent(entries: seq<Entry>, admitted: seq<int>, gone: nat, clock: int, now: int, limit: nat,
                           window: int)
    requires Consistent(entries, admitted, gone, clock, limit, window) && clock <= now
    requires admitted != [] && now > admitted[|admitted| - 1] + window
    ensures Consistent([], admitted, |admitted|, now, limit, window)
  {
    forall i | 0 <= i < |admitted|
      ensures admitted[i] <= now - window
    {
      assert InOrder(admitted, i, |admitted| - 1);
    }
  }

  lemma SizeCountsWindow(entries: seq<Entry>, admitted: seq<int>, gone: nat, now: int, limit: nat, window: int)
    requires Consistent(entries, admitted, gone, now, limit, window)
    ensures |entries| == InWindow(admitted, now, window)
  {
    CountBetweenCuts(admitted, now - window, now, gone, |admitted|);
    assert |Scores(entries)| == |admitted| - gone;
  }

  lemma AdmissionIsConsistent(entries: seq<Entry>, admitted: seq<int>, gone: nat, now: int, member: string,
                              limit: nat, window: int)
    requires Consistent(entries, admitted, gone, now, limit, window) && |entries| < limit && window > 0 && now >= 0
    ensures Consistent(entries + [Entry(now, member)], admitted + [now], gone, now, limit, window)
  {
    assert |Scores(entries)| == |admitted| - gone;
    forall i: nat, j: nat
      ensures InOrder(admitted + [now], i, j)
    {
      assert InOrder(admitted, i, j);
    }
    AdmissionKeepsSpacing(admitted, gone, now, limit, window);
    assert Scores(entries + [Entry(now, member)]) == Scores(entries) + [now];
    assert (admitted + [now])[gone..] == admitted[gone..] + [now];
  }

  lemma AdmissionKeepsSpacing(ts: seq<int>, gone: nat, now: int, limit: nat, window: int)
    requires Spaced(ts, limit, window) && CutAt(ts, now - window, gone) && |ts| - gone < limit
    ensures Spaced(ts + [now], limit, window)
  {
    var more := ts + [now];
    forall i: nat
      ensures SpacedAt(more, i, limit, window)
    {
      assert SpacedAt(ts, i, limit, window);
      if i + limit == |ts| {
        assert ts[i] <= now - window;
      }
    }
  }

  /** Any interval one window long, wherever it ends, holds at most `limit` admissions. */
  lemma EveryWindowIsBounded(entries: seq<Entry>, admitted: seq<int>, gone: nat, clock: int, limit: nat, window: int)
    requires Consistent(entries, admitted, gone, clock, limit, window) && window > 0
    ensures forall t :: InWindow(admitted, t, window) <= limit
  {
    forall t
      ensures InWindow(admitted, t, window) <= limit
    {
      SpacedBoundsEveryWindow(admitted, limit, window, t);
    }
  }

  // ----------------------------------------------------------------------- the limiter

  /** One client's key. */
  class Limiter {
    const limit: nat
    const window: int
    var entries: seq<Entry>
    /** When PEXPIRE makes the key vanish. */
    var expiry: Option<int>
    /** The times of all requests the script has let in, how many of them have left the set, and the last clock. */
    ghost var admitted: seq<int>
    ghost var gone: nat
    ghost var clock: int

    ghost predicate Valid()
      reads this
    {
      && window > 0
      && Consistent(entries, admitted, gone, clock, limit, window)
      && (expiry.Some? ==> admitted != [] && expiry.value == admitted[|admitted| - 1] + window)
    }

    constructor (limit: nat, window: int)
      requires window > 0
      ensures Valid() && admitted == [] && this.limit == limit && this.window == window
    {
      this.limit, this.window := limit, window;
      entries, expiry, admitted, gone, clock := [], None, [], 0, 0;
    }

    /** The key's view at `now`: vanished if its expiry has passed, then trimmed to the window. */
    method RemoveOld(now: int)
      requires Valid() && now >= clock
      modifies this
      ensures Valid() && clock == now && admitted == old(admitted)
    {
      hide Consistent, Trimmed;
      var kept;
      if expiry.Some? && now > expiry.value {
        ExpiryIsConsistent(entries, admitted, gone, clock, now, limit, window);
        kept, expiry, gone := [], None, |admitted|;
      } else {
        kept := Trimmed(entries, now - window);
        gone := TrimIsConsistent(entries, admitted, gone, clock, now, limit, window);
      }
      assert Consistent(kept, admitted, gone, now, limit, window);
      entries := kept;
      clock := now;
    }

    /**
     The script. Its answer is a function of the earlier admissions alone: it
     lets a request in exactly when fewer than `limit` of them lie in the last
     window. That the key expires is not observable.
     */
    method Script(now: int, member: string) returns (admit: bool)
      requires Valid() && now >= clock && now >= 0 && !HasMember(entries, member)
      modifies this
      ensures Valid() && clock == now
      ensures admit <==> InWindow(old(admitted), now, window) < limit
      ensures admitted == if admit then old(admitted) + [now] else old(admitted)
      ensures forall t :: InWindow(admitted, t, window) <= limit
    {
      RemoveOld(now);
      SizeCountsWindow(entries, admitted, gone, now, limit, window);
      if |entries| >= limit {
        admit := false;
      } else {
        AdmissionIsConsistent(entries, admitted, gone, now, member, limit, window);
        entries := entries + [Entry(now, member)];
        expiry := Some(now + window);
        admitted := admitted + [now];
        admit := true;
      }
      EveryWindowIsBounded(entries, admitted, gone, now, limit, window);
    }

    /**
     `allowRate`: without Redis everything passes; when the call fails the
     request is refused, whether or not the script had run.
     */
    method AllowRate(configured: bool, now: int, member: string, ran: bool, replied: bool) returns (allowed: bool)
      requires Valid() && now >= clock && now >= 0 && !HasMember(entries, member)
      modifies this
      ensures Valid()
      ensures configured && allowed ==> admitted == old(admitted) + [now]
      ensures configured && !allowed && ran && replied ==> InWindow(old(admitted), now, window) >= limit
      ensures configured && !(ran && replied) ==> !allowed
      ensures !configured ==> allowed && admitted == old(admitted)
    {
      if !configured {
        return true;
      }
      var result := false;
      if ran {
        result := Script(now, member);
      }
      return ran && replied && result;
    }
  }
}
