/**
 The per-document lock (sync-service/internal/lock.go): a Redis key holding a
 random token, set if absent with a time to live, deleted only by whoever
 presents that token. A key vanishes once the clock is past its expiry.
 */
module Leases {

  datatype Lease = Lease(token: string, expiresAt: int)

  /**
   One worker's critical section: from its successful SetNX to its release
   call, whatever that call finds in Redis.
   */
  datatype Section = Section(key: string, token: string, start: int, stop: Stop)

  datatype Stop = Open | At(time: int)

  type Held = map<string, Lease>

  /** The key as Redis sees it at `now`. */
  function Refreshed(held: Held, key: string, now: int): Held {
    if key in held && now > held[key].expiresAt then held - {key} else held
  }

  // ------------------------------------------------------------------- exclusion

  /**
   Of two sections of one document, the later one starts after the earlier one
   has stopped, or after the earlier one's lease has expired.
   */
  predicate Separated(s: seq<Section>, i: nat, j: nat, ttl: nat) {
    i < j < |s| && s[i].key == s[j].key ==>
      || s[i].start + ttl < s[j].start
      || (s[i].stop.At? && s[i].stop.time <= s[j].start)
  }

  ghost predicate Exclusive(s: seq<Section>, ttl: nat) {
    forall i: nat, j: nat :: Separated(s, i, j, ttl)
  }

  /** Section `i` is still running and its lease has not expired. */
  predicate Holding(s: seq<Section>, i: nat, now: int, ttl: nat) {
    i < |s| && s[i].stop.Open? && now <= s[i].start + ttl
  }

  /** Two sections overlap: the later one starts before the earlier one stops. */
  predicate Overlap(s: seq<Section>, i: nat, j: nat) {
    i < j < |s| && s[i].key == s[j].key && (s[i].stop.Open? || s[i].stop.time > s[j].start)
  }

  /** Section `i` was still running when its lease expired. */
  predicate Outlives(s: seq<Section>, i: nat, now: int, ttl: nat) {
    i < |s| && (if s[i].stop.Open? then now else s[i].stop.time) > s[i].start + ttl
  }

  /** At any time at most one running section per document holds an unexpired lease. */
  lemma AtMostOneHolder(s: seq<Section>, i: nat, j: nat, now: int, ttl: nat)
    requires Exclusive(s, ttl) && i != j && i < |s| && j < |s| && s[i].key == s[j].key
    requires s[i].start <= now && s[j].start <= now
    ensures !(Holding(s, i, now, ttl) && Holding(s, j, now, ttl))
  {
    assert Separated(s, i, j, ttl) && Separated(s, j, i, ttl);
  }

  /** Sections of one document overlap only when the earlier one outlived its lease. */
  lemma OverlapMeansOutlived(s: seq<Section>, i: nat, j: nat, now: int, ttl: nat)
    requires Exclusive(s, ttl) && Overlap(s, i, j) && s[j].start <= now
    ensures Outlives(s, i, now, ttl)
  {
    assert Separated(s, i, j, ttl);
  }

  // ------------------------------------------------------------------- what every call keeps

  /** Tokens are never reused, and nothing has happened in the future. */
  ghost predicate WellFormed(s: seq<Section>, clock: int) {
    && (forall i, j :: 0 <= i < j < |s| ==> s[i].token != s[j].token)
    && (forall i :: 0 <= i < |s| ==> s[i].start <= clock && (s[i].stop.At? ==> s[i].stop.time <= clock))
  }

  /** The lease in the store is the one section `i` took. */
  predicate Guards(held: Held, s: seq<Section>, i: nat, ttl: nat) {
    i < |s| && s[i].key in held && held[s[i].key] == Lease(s[i].token, s[i].start + ttl)
  }

  /** A running section whose lease has not expired finds it in the store. */
  ghost predicate Protected(held: Held, s: seq<Section>, clock: int, ttl: nat) {
    forall i: nat :: Holding(s, i, clock, ttl) ==> Guards(held, s, i, ttl)
  }

  ghost predicate Sound(held: Held, s: seq<Section>, clock: int, ttl: nat) {
    WellFormed(s, clock) && Exclusive(s, ttl) && Protected(held, s, clock, ttl)
  }

  lemma RefreshIsSound(held: Held, s: seq<Section>, clock: int, key: string, now: int, ttl: nat)
    requires Sound(held, s, clock, ttl) && clock <= now
    ensures Sound(Refreshed(held, key, now), s, now, ttl)
  {
    forall i: nat | Holding(s, i, now, ttl)
      ensures Guards(Refreshed(held, key, now), s, i, ttl)
    {
      assert Holding(s, i, clock, ttl);
    }
  }

  /** A key that nobody holds may be set, whether or not a section then starts. */
  lemma SettingIsSound(held: Held, s: seq<Section>, key: string, lease: Lease, now: int, ttl: nat)
    requires Sound(held, s, now, ttl) && key !in held
    ensures Sound(held[key := lease], s, now, ttl)
  {
    forall i: nat | Holding(s, i, now, ttl)
      ensures Guards(held[key := lease], s, i, ttl)
    {
      assert Guards(held, s, i, ttl);
    }
  }

  lemma AcquireIsSound(held: Held, s: seq<Section>, key: string, token: string, now: int, ttl: nat)
    requires Sound(held, s, now, ttl) && key !in held
    requires forall i :: 0 <= i < |s| ==> s[i].token != token
    ensures Sound(held[key := Lease(token, now + ttl)], s + [Section(key, token, now, Open)], now, ttl)
  {
    var after, t := held[key := Lease(token, now + ttl)], s + [Section(key, token, now, Open)];
    forall i: nat, j: nat
      ensures Separated(t, i, j, ttl)
    {
      assert Separated(s, i, j, ttl);
      assert i < |s| && s[i].key == key ==> !Guards(held, s, i, ttl) && !Holding(s, i, now, ttl);
    }
    forall i: nat | Holding(t, i, now, ttl)
      ensures Guards(after, t, i, ttl)
    {
      if i < |s| {
        assert Holding(s, i, now, ttl) && Guards(held, s, i, ttl);
      }
    }
  }

  /**
   Section `i` stops and a key is or is not deleted with it. This keeps every
   promise exactly when no other section is running under that key with an
   unexpired lease.
   */
  lemma StopIsSoundExactly(held: Held, s: seq<Section>, i: nat, deletes: bool, now: int, ttl: nat)
    requires Sound(held, s, now, ttl) && i < |s| && s[i].stop.Open?
    ensures var after := if deletes then held - {s[i].key} else held;
            Sound(after, s[i := s[i].(stop := At(now))], now, ttl)
            <==> !(deletes && exists j: nat :: j != i && j < |s| && s[j].key == s[i].key && Holding(s, j, now, ttl))
  {
    var after, t := if deletes then held - {s[i].key} else held, s[i := s[i].(stop := At(now))];
    forall a: nat, b: nat
      ensures Separated(t, a, b, ttl)
    {
      assert Separated(s, a, b, ttl);
    }
    assert forall j: nat :: Holding(t, j, now, ttl) <==> j != i && Holding(s, j, now, ttl);
    if deletes && exists j: nat :: j != i && j < |s| && s[j].key == s[i].key && Holding(s, j, now, ttl) {
      var j: nat :| j != i && j < |s| && s[j].key == s[i].key && Holding(s, j, now, ttl);
      assert Holding(t, j, now, ttl) && !Guards(after, t, j, ttl);
    } else {
      forall j: nat | Holding(t, j, now, ttl)
        ensures Guards(after, t, j, ttl)
      {
        assert Guards(held, s, j, ttl);
      }
    }
  }

  /** A lease found under one's own token is nobody else's. */
  lemma OwnTokenMeansOwnLease(held: Held, s: seq<Section>, i: nat, j: nat, now: int, ttl: nat)
    requires Sound(held, s, now, ttl) && i != j && i < |s| && j < |s|
    requires s[j].key == s[i].key && s[i].key in held && held[s[i].key].token == s[i].token
    ensures !Holding(s, j, now, ttl)
  {
    assert s[i].token != s[j].token;
    assert Holding(s, j, now, ttl) ==> Guards(held, s, j, ttl);
  }

  // ------------------------------------------------------------------- the store

  /** What the client hears from Redis; a lost call may have been applied. */
  datatype Reply = Fine | Lost(applied: bool)

  datatype Outcome = Acquired | Busy | Failed

  class LockStore {
    var held: Held
    var clock: int
    const ttl: nat
    ghost var sections: seq<Section>

    constructor (ttl: nat, clock: int)
      ensures Valid() && sections == [] && held == map[] && this.ttl == ttl && this.clock == clock
    {
      held, sections := map[], [];
      this.ttl, this.clock := ttl, clock;
    }

    ghost predicate Valid()
      reads this
    {
      Sound(held, sections, clock, ttl)
    }

    /**
     SetNX: takes the key if it is free, for `ttl`. Tokens are drawn at random
     and taken to be fresh. A section starts only when the caller hears success.
     */
    method Acquire(key: string, token: string, now: int, reply: Reply) returns (outcome: Outcome)
      requires clock <= now
      requires forall i :: 0 <= i < |sections| ==> sections[i].token != token
      modifies this
      ensures clock == now && (old(Valid()) ==> Valid())
      ensures outcome == Acquired <==> reply.Fine? && key !in Refreshed(old(held), key, now)
      ensures outcome == Busy <==> reply.Fine? && key in Refreshed(old(held), key, now)
      ensures sections == old(sections) + if outcome == Acquired then [Section(key, token, now, Open)] else []
      ensures held == if key !in Refreshed(old(held), key, now) && (reply.Fine? || reply.applied)
                      then Refreshed(old(held), key, now)[key := Lease(token, now + ttl)]
                      else Refreshed(old(held), key, now)
    {
      ghost var sound := Valid();
      if sound {
        RefreshIsSound(held, sections, clock, key, now, ttl);
      }
      held, clock := Refreshed(held, key, now), now;
      var free := key !in held;
      if free && (reply.Fine? || reply.applied) {
        if sound {
          SettingIsSound(held, sections, key, Lease(token, now + ttl), now, ttl);
          AcquireIsSound(held, sections, key, token, now, ttl);
        }
        if reply.Fine? {
          sections := sections + [Section(key, token, now, Open)];
        }
        held := held[key := Lease(token, now + ttl)];
      }
      outcome := if reply.Lost? then Failed else if free then Acquired else Busy;
    }

    /** The release script: deletes the key only if it still holds this section's token. */
    method Release(ghost i: nat, key: string, token: string, now: int, reply: Reply) returns (outcome: Outcome)
      requires Valid() && clock <= now
      requires i < |sections| && sections[i].stop.Open? && sections[i].key == key && sections[i].token == token
      modifies this
      ensures Valid() && clock == now
      ensures sections == old(sections)[i := old(sections)[i].(stop := At(now))]
      ensures forall k :: k in old(held) && k !in held ==>
                k == key && (old(held)[k].token == token || now > old(held)[k].expiresAt)
      ensures forall k :: k in held ==> k in old(held) && held[k] == old(held)[k]
      ensures reply.Fine? ==> key !in held || held[key].token != token
      ensures outcome == Failed <==> reply.Lost?
    {
      RefreshIsSound(held, sections, clock, key, now, ttl);
      held, clock := Refreshed(held, key, now), now;
      var deletes := key in held && held[key].token == token && (reply.Fine? || reply.applied);
      if deletes {
        forall j: nat | j != i && j < |sections| && sections[j].key == key
          ensures !Holding(sections, j, now, ttl)
        {
          OwnTokenMeansOwnLease(held, sections, i, j, now, ttl);
        }
      }
      StopIsSoundExactly(held, sections, i, deletes, now, ttl);
      if deletes {
        held := held - {key};
      }
      sections := sections[i := sections[i].(stop := At(now))];
      outcome := if reply.Lost? then Failed else Acquired;
    }

    /**
     The backend's `release_lock`: deletes the key whatever it holds. The store
     stays sound exactly when nobody else was running under it.
     */
    method BlindDelete(ghost i: nat, key: string, now: int)
      requires Valid() && clock <= now
      requires i < |sections| && sections[i].stop.Open? && sections[i].key == key
      modifies this
      ensures clock == now && held == old(held) - {key}
      ensures sections == old(sections)[i := old(sections)[i].(stop := At(now))]
      ensures Valid() <==> !exists j: nat ::
                && j != i && j < |old(sections)| && old(sections)[j].key == key
                && Holding(old(sections), j, now, ttl)
    {
      RefreshIsSound(held, sections, clock, key, now, ttl);
      StopIsSoundExactly(Refreshed(held, key, now), sections, i, true, now, ttl);
      assert Refreshed(held, key, now) - {key} == held - {key};
      held, clock := held - {key}, now;
      sections := sections[i := sections[i].(stop := At(now))];
    }
  }

  // ------------------------------------------------------------------- two runs that fall short

  /**
   A section still running when its lease runs out is joined by another,
   whatever the time to live is.
   */
  method OutlivedLeaseIsShared(key: string, ttl: nat) returns (store: LockStore)
    ensures fresh(store) && store.Valid() && Overlap(store.sections, 0, 1)
    ensures Outlives(store.sections, 0, store.clock, ttl) && store.sections[1].stop.Open?
  {
    store := new LockStore(ttl, 0);
    var _ := store.Acquire(key, "a", 0, Fine);
    var _ := store.Acquire(key, "b", ttl + 1, Fine);
  }

  /**
   With the blind delete, a worker that comes back late deletes its successor's
   lease, and a third section overlaps the second one well within its time to live.
   */
  method BlindDeleteBreaksALease(key: string, ttl: nat) returns (store: LockStore)
    requires ttl >= 2
    ensures fresh(store) && Overlap(store.sections, 1, 2)
    ensures Holding(store.sections, 1, store.clock, ttl) && Holding(store.sections, 2, store.clock, ttl)
  {
    store := new LockStore(ttl, 0);
    var _ := store.Acquire(key, "a", 0, Fine);
    var _ := store.Acquire(key, "b", ttl + 1, Fine);
    store.BlindDelete(0, key, ttl + 2);
    var _ := store.Acquire(key, "c", ttl + 2, Fine);
  }
}
