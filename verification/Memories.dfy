/**
 Saved memories (backend/services/memory_service.py): rows keyed by scope and
 memory key, where creating means updating the newest row under the key unless
 that one was rejected, and deleting means rejecting. A row's id is its position.
 */
module Memories {
  import opened Options
  import opened Tokenizer
  import opened MemoryCandidates

  const ACTIVE := "active"
  const CANDIDATE := "candidate"
  const REJECTED := "rejected"

  /** What an update overwrites; a session or message id of 0 stands for none. */
  datatype Details = Details(
    content: string, category: string, source: string, session: nat, message: nat, sensitive: bool,
    extra: map<string, string>)

  datatype Memory = Memory(
    scope: string, key: string, details: Details, status: string, confidence: real, importance: real,
    isActive: bool, useCount: nat, lastUsedAt: Option<int>, updatedAt: int)

  /** The arguments of `create_memory`, with the key and content in normal form. */
  datatype Request = Request(
    scope: string, key: string, details: Details, status: string, confidence: real, importance: real)

  function Asked(scope: string, key: string, details: Details, status: string,
                 confidence: real, importance: real, low: Lowering): Request
  {
    var content := NormalizeMemory(details.content);
    Request(scope, NormalizeKey(if key != "" then key else InferKey(details.category, content), low),
            details.(content := content), status, confidence, importance)
  }

  type Rows = seq<Memory>

  predicate Live(m: Memory) { m.status != REJECTED }

  predicate Under(m: Memory, scope: string, key: string) { m.scope == scope && m.key == key }

  predicate SameKey(a: Memory, b: Memory) { Under(a, b.scope, b.key) }

  // ------------------------------------------------------------------- the operations

  /** A flush writes, and stamps, a row only if some column changed. */
  function Written(before: Memory, after: Memory, now: int): Memory {
    if after == before then before else after.(updatedAt := now)
  }

  function Larger(a: real, b: real): real { if a >= b then a else b }

  function Updated(m: Memory, q: Request, now: int): Memory {
    var details := Details(
      q.details.content,
      if q.details.category != "" then q.details.category else m.details.category,
      q.details.source,
      if q.details.session != 0 then q.details.session else m.details.session,
      if q.details.message != 0 then q.details.message else m.details.message,
      q.details.sensitive,
      m.details.extra + q.details.extra);
    Written(m, m.(details := details,
                  status := if m.status == ACTIVE && q.status == CANDIDATE then m.status else q.status,
                  confidence := Larger(m.confidence, q.confidence),
                  importance := Larger(m.importance, q.importance),
                  isActive := true), now)
  }

  function Inserted(q: Request, now: int): Memory {
    var category := if q.details.category != "" then q.details.category else "preference";
    Memory(q.scope, q.key, q.details.(category := category), q.status, q.confidence, q.importance, true, 0, None, now)
  }

  function Rejection(m: Memory, now: int): Memory {
    Written(m, m.(status := REJECTED, isActive := false), now)
  }

  /** The rows `order_by(updated_at.desc()).limit(1)` may return: equal stamps are ordered by chance. */
  predicate IsNewest(rows: Rows, scope: string, key: string, i: nat) {
    && i < |rows| && Under(rows[i], scope, key)
    && forall j: nat :: j < |rows| && Under(rows[j], scope, key) ==> rows[j].updatedAt <= rows[i].updatedAt
  }

  datatype Op =
    | Create(q: Request, now: int)
    | Delete(scope: string, id: nat, now: int)
    | DeactivateAll(scope: string, now: int)
    | Recall(scope: string, chosen: set<nat>, now: int)

  /** The rows `format_memory_context` picks are active ones of its scope. */
  predicate Recallable(rows: Rows, scope: string, chosen: set<nat>) {
    forall i :: i in chosen ==> i < |rows| && rows[i].scope == scope && rows[i].status == ACTIVE && rows[i].isActive
  }

  function Elements(picked: seq<nat>): set<nat> { set i: nat | i in picked }

  function Used(m: Memory, now: int): Memory {
    m.(useCount := m.useCount + 1, lastUsedAt := Some(now), updatedAt := now)
  }

  ghost predicate Creates(before: Rows, q: Request, now: int, after: Rows) {
    || (exists i: nat :: IsNewest(before, q.scope, q.key, i) && Live(before[i])
                         && after == before[i := Updated(before[i], q, now)])
    || (&& after == before + [Inserted(q, now)]
        && ((exists i: nat :: IsNewest(before, q.scope, q.key, i) && !Live(before[i]))
            || forall i: nat :: i < |before| ==> !Under(before[i], q.scope, q.key)))
  }

  predicate Deletes(before: Rows, scope: string, id: nat, now: int, after: Rows) {
    after == if id < |before| && before[id].scope == scope then before[id := Rejection(before[id], now)] else before
  }

  function Deactivated(m: Memory, scope: string, now: int): Memory {
    if m.scope == scope then m.(status := REJECTED, isActive := false, updatedAt := now) else m
  }

  /** One bulk UPDATE: it stamps every row of the scope. */
  predicate Deactivates(before: Rows, scope: string, now: int, after: Rows) {
    && |after| == |before|
    && forall i: nat :: i < |before| ==>
         after[i] == Deactivated(before[i], scope, now)
  }

  predicate Recalls(before: Rows, chosen: set<nat>, now: int, after: Rows) {
    && |after| == |before|
    && forall i: nat :: i < |before| ==> after[i] == if i in chosen then Used(before[i], now) else before[i]
  }

  ghost predicate Performs(before: Rows, op: Op, after: Rows) {
    match op
    case Create(q, now) => Creates(before, q, now, after)
    case Delete(scope, id, now) => Deletes(before, scope, id, now, after)
    case DeactivateAll(scope, now) => Deactivates(before, scope, now, after)
    case Recall(scope, chosen, now) => Recallable(before, scope, chosen) && Recalls(before, chosen, now, after)
  }

  // ------------------------------------------------------------------- at most one live row per key

  /** A live row is newer than every other row under its key. */
  ghost predicate LiveIsNewest(rows: Rows) {
    forall i: nat, j: nat :: i < |rows| && j < |rows| && i != j && Live(rows[i]) && SameKey(rows[i], rows[j])
                             ==> rows[j].updatedAt < rows[i].updatedAt
  }

  ghost predicate RejectedAreInactive(rows: Rows) {
    forall i: nat :: i < |rows| && !Live(rows[i]) ==> !rows[i].isActive
  }

  ghost predicate Sound(rows: Rows) { LiveIsNewest(rows) && RejectedAreInactive(rows) }

  /**
   No stamp lies ahead of the clock, and a row rejected under the key being
   created carries an older one. Distinct transactions have distinct times; in
   one transaction nothing is rejected before something is created.
   */
  ghost predicate Timely(rows: Rows, op: Op) {
    && (forall i: nat :: i < |rows| ==> rows[i].updatedAt <= op.now)
    && (op.Create? ==> forall i: nat :: i < |rows| && Under(rows[i], op.q.scope, op.q.key) && !Live(rows[i])
                                        ==> rows[i].updatedAt < op.now)
  }

  /** Nobody creates a memory that is already rejected. */
  predicate Ordinary(op: Op) { op.Create? ==> op.q.status != REJECTED }

  lemma AtMostOneLive(rows: Rows, i: nat, j: nat)
    requires LiveIsNewest(rows) && i < |rows| && j < |rows| && i != j && SameKey(rows[i], rows[j])
    ensures !(Live(rows[i]) && Live(rows[j]))
    ensures Live(rows[i]) ==>
              IsNewest(rows, rows[i].scope, rows[i].key, i) && !IsNewest(rows, rows[i].scope, rows[i].key, j)
  {
    assert SameKey(rows[j], rows[i]);
  }

  /** A row is inserted only where no live row stands under the key. */
  lemma InsertedWhereNoneIsLive(before: Rows, scope: string, key: string)
    requires LiveIsNewest(before)
    requires (exists k: nat :: IsNewest(before, scope, key, k) && !Live(before[k]))
             || forall i: nat :: i < |before| ==> !Under(before[i], scope, key)
    ensures forall i: nat :: i < |before| && Under(before[i], scope, key) ==> !Live(before[i])
  {
    forall i: nat | i < |before| && Under(before[i], scope, key)
      ensures !Live(before[i])
    {
      var k: nat :| IsNewest(before, scope, key, k) && !Live(before[k]);
      assert SameKey(before[i], before[k]);
    }
  }

  lemma CreateKeepsLiveNewest(before: Rows, q: Request, now: int, after: Rows)
    requires LiveIsNewest(before) && Timely(before, Create(q, now)) && Creates(before, q, now, after)
    ensures LiveIsNewest(after)
  {
    if after == before + [Inserted(q, now)] {
      InsertedWhereNoneIsLive(before, q.scope, q.key);
      InsertKeepsLiveNewest(before, Inserted(q, now));
    } else {
      var i: nat :| IsNewest(before, q.scope, q.key, i) && Live(before[i])
                    && after == before[i := Updated(before[i], q, now)];
      UpdateKeepsLiveNewest(before, i, Updated(before[i], q, now));
    }
  }

  lemma InsertKeepsLiveNewest(before: Rows, m: Memory)
    requires LiveIsNewest(before)
    requires forall i: nat :: i < |before| && SameKey(before[i], m) ==>
               !Live(before[i]) && before[i].updatedAt < m.updatedAt
    ensures LiveIsNewest(before + [m])
  {
  }

  /** Updating a live row in place, without turning the clock back; it may be rejected by that. */
  lemma UpdateKeepsLiveNewest(before: Rows, i: nat, m: Memory)
    requires LiveIsNewest(before) && i < |before| && Live(before[i]) && SameKey(m, before[i])
    requires m.updatedAt >= before[i].updatedAt
    ensures LiveIsNewest(before[i := m])
  {
    AtMostOneLiveUnder(before, i);
  }

  lemma AtMostOneLiveUnder(rows: Rows, i: nat)
    requires LiveIsNewest(rows) && i < |rows| && Live(rows[i])
    ensures forall j: nat :: j < |rows| && j != i && SameKey(rows[j], rows[i]) ==>
              !Live(rows[j]) && rows[j].updatedAt < rows[i].updatedAt
  {
    forall j: nat | j < |rows| && j != i && SameKey(rows[j], rows[i])
      ensures !Live(rows[j]) && rows[j].updatedAt < rows[i].updatedAt
    {
      AtMostOneLive(rows, i, j);
      assert SameKey(rows[i], rows[j]);
    }
  }

  /** The operation deletes a row that was rejected before, and left active, beside a live one under its key. */
  ghost predicate Restamps(rows: Rows, op: Op) {
    && op.Delete? && op.id < |rows| && rows[op.id].scope == op.scope && !Live(rows[op.id]) && rows[op.id].isActive
    && exists j: nat :: j < |rows| && SameKey(rows[j], rows[op.id]) && Live(rows[j])
  }

  /** Deleting keeps the live row newest exactly when it does not stamp a row that was rejected before. */
  lemma DeleteKeepsLiveNewestExactly(before: Rows, scope: string, id: nat, now: int, after: Rows)
    requires LiveIsNewest(before) && Timely(before, Delete(scope, id, now)) && Deletes(before, scope, id, now, after)
    ensures LiveIsNewest(after) <==> !Restamps(before, Delete(scope, id, now))
  {
    if Restamps(before, Delete(scope, id, now)) {
      var j: nat :| j < |before| && SameKey(before[j], before[id]) && Live(before[j]);
      assert j != id && Live(after[j]) && SameKey(after[j], after[id]) && after[id].updatedAt == now;
      assert before[j].updatedAt <= now;
    }
  }

  /**
   One step, whatever the statuses: only a deletion that stamps a rejected row
   can leave a live row that is not the newest under its key.
   */
  lemma StepKeepsLiveNewestExactly(before: Rows, op: Op, after: Rows)
    requires LiveIsNewest(before) && Timely(before, op) && Performs(before, op, after)
    ensures LiveIsNewest(after) <==> !Restamps(before, op)
  {
    match op
    case Create(q, now) => CreateKeepsLiveNewest(before, q, now, after);
    case Delete(scope, id, now) => DeleteKeepsLiveNewestExactly(before, scope, id, now, after);
    case DeactivateAll(scope, now) =>
    case Recall(scope, chosen, now) =>
  }

  /** While nobody creates a rejected memory, what is rejected is inactive, and so nothing is stamped again. */
  lemma StepIsSound(before: Rows, op: Op, after: Rows)
    requires Sound(before) && Timely(before, op) && Performs(before, op, after) && Ordinary(op)
    ensures Sound(after)
  {
    StepKeepsLiveNewestExactly(before, op, after);
    if op.Create? && after != before + [Inserted(op.q, op.now)] {
      var i: nat :| IsNewest(before, op.q.scope, op.q.key, i) && Live(before[i])
                    && after == before[i := Updated(before[i], op.q, op.now)];
    }
  }

  /**
   What creating is for: afterwards any lookup finds one row, which holds the new
   content and no lower scores; it is the only live one under the key, unless it
   was created as rejected and none is. Nothing else moved.
   */
  lemma CreateIsAnUpsert(before: Rows, q: Request, now: int, after: Rows) returns (k: nat)
    requires LiveIsNewest(before) && Timely(before, Create(q, now)) && Creates(before, q, now, after)
    ensures IsNewest(after, q.scope, q.key, k) && (Live(after[k]) <==> q.status != REJECTED) && after[k].isActive
    ensures forall i: nat ::
              (&& i < |after| && Under(after[i], q.scope, q.key)
               && (Live(after[i]) || IsNewest(after, q.scope, q.key, i))) ==> i == k
    ensures after[k].details.content == q.details.content
    ensures after[k].confidence >= q.confidence && after[k].importance >= q.importance
    ensures |before| <= |after| && forall i: nat :: i < |before| && i != k ==> after[i] == before[i]
    ensures (exists i: nat :: i < |before| && Under(before[i], q.scope, q.key) && Live(before[i]))
            <==> k < |before|
  {
    if after == before + [Inserted(q, now)] {
      k := |before|;
      InsertedWhereNoneIsLive(before, q.scope, q.key);
    } else {
      k :| IsNewest(before, q.scope, q.key, k) && Live(before[k]) && after == before[k := Updated(before[k], q, now)];
      AtMostOneLiveUnder(before, k);
    }
    forall i: nat | i < |after| && i != k && Under(after[i], q.scope, q.key)
      ensures !Live(after[i]) && after[i].updatedAt < after[k].updatedAt
    {
      assert after[i] == before[i];
    }
  }

  /** The larger of two values. */
  predicate IsLarger(r: real, a: real, b: real) {
    r >= a && r >= b && (r == a || r == b)
  }

  /**
   The row that creating leaves, field by field: a request overwrites what it gives,
   keeps what it leaves open, never lowers a score and never turns an active memory
   into a candidate; a new row starts unused.
   */
  lemma CreatedRow(before: Rows, q: Request, now: int, after: Rows, k: nat)
    requires Creates(before, q, now, after) && k < |after| && (k < |before| ==> after[k] != before[k])
    ensures var n := after[k];
            && Under(n, q.scope, q.key) && n.isActive && n.updatedAt == now
            && n.details.content == q.details.content && n.details.source == q.details.source
            && n.details.sensitive == q.details.sensitive
            && (q.details.category != "" ==> n.details.category == q.details.category)
            && (q.details.session != 0 ==> n.details.session == q.details.session)
            && (q.details.message != 0 ==> n.details.message == q.details.message)
            && (forall x :: x in q.details.extra ==> x in n.details.extra && n.details.extra[x] == q.details.extra[x])
    ensures k < |before| ==>
              var m, n := before[k], after[k];
              && (n.status == if m.status == ACTIVE && q.status == CANDIDATE then ACTIVE else q.status)
              && IsLarger(n.confidence, m.confidence, q.confidence)
              && IsLarger(n.importance, m.importance, q.importance)
              && (q.details.category == "" ==> n.details.category == m.details.category)
              && (q.details.session == 0 ==> n.details.session == m.details.session)
              && (q.details.message == 0 ==> n.details.message == m.details.message)
              && (forall x :: x !in q.details.extra ==>
                    (x in n.details.extra <==> x in m.details.extra)
                    && (x in m.details.extra ==> n.details.extra[x] == m.details.extra[x]))
              && n.useCount == m.useCount && n.lastUsedAt == m.lastUsedAt
    ensures k == |before| ==>
              var n := after[k];
              && n.status == q.status && n.confidence == q.confidence && n.importance == q.importance
              && (q.details.category == "" ==> n.details.category == "preference")
              && n.details.session == q.details.session && n.details.message == q.details.message
              && n.details.extra == q.details.extra && n.useCount == 0 && n.lastUsedAt == None
  {
    if after != before + [Inserted(q, now)] {
      var i: nat :| IsNewest(before, q.scope, q.key, i) && Live(before[i])
                    && after == before[i := Updated(before[i], q, now)];
    }
  }

  // ------------------------------------------------------------------- whole histories

  /** The rows before, between and after a sequence of operations, from an empty table. */
  ghost predicate History(tables: seq<Rows>, ops: seq<Op>) {
    && |tables| == |ops| + 1 && tables[0] == []
    && forall k :: 0 <= k < |ops| ==>
         Performs(tables[k], ops[k], tables[k + 1]) && Timely(tables[k], ops[k])
  }

  /** Up to the n-th operation every live row has been the newest under its key. */
  ghost predicate AlwaysLiveNewest(tables: seq<Rows>, n: nat)
    requires n < |tables|
  {
    forall k :: 0 <= k <= n ==> LiveIsNewest(tables[k])
  }

  /** One of the first n operations stamps a rejected row beside a live one. */
  ghost predicate EverRestamps(tables: seq<Rows>, ops: seq<Op>, n: nat)
    requires n <= |ops| && n <= |tables|
  {
    exists k :: 0 <= k < n && Restamps(tables[k], ops[k])
  }

  /**
   Whole histories, whatever the statuses: each key has had at most one live row,
   and that the newest, if and only if no operation so far has deleted a rejected
   but still active row beside a live one.
   */
  lemma {:induction false} HistoriesKeepLiveNewestExactly(tables: seq<Rows>, ops: seq<Op>, n: nat)
    requires History(tables, ops) && n < |tables|
    ensures AlwaysLiveNewest(tables, n) <==> !EverRestamps(tables, ops, n)
  {
    if n > 0 {
      HistoriesKeepLiveNewestExactly(tables, ops, n - 1);
      if LiveIsNewest(tables[n - 1]) {
        StepKeepsLiveNewestExactly(tables[n - 1], ops[n - 1], tables[n]);
      }
    }
  }

  /** If nobody creates a rejected memory, no operation ever does that. */
  lemma {:induction false} HistoriesAreSound(tables: seq<Rows>, ops: seq<Op>, k: nat)
    requires History(tables, ops) && k < |tables| && forall i :: 0 <= i < k ==> Ordinary(ops[i])
    ensures Sound(tables[k])
  {
    if k > 0 {
      HistoriesAreSound(tables, ops, k - 1);
      StepIsSound(tables[k - 1], ops[k - 1], tables[k]);
    }
  }

  /** How far a row has come: a candidate, then active, then rejected. */
  function Stage(m: Memory): nat {
    if m.status == CANDIDATE then 0 else if m.status == ACTIVE then 1 else 2
  }

  predicate Grows(a: Memory, b: Memory) {
    && SameKey(a, b) && a.confidence <= b.confidence && a.importance <= b.importance && a.useCount <= b.useCount
    && (a.status == REJECTED ==> b.status == REJECTED) && a.updatedAt <= b.updatedAt
  }

  /** Rows are never removed or renamed, their scores never fall, and a rejected one stays so. */
  predicate Grown(before: Rows, after: Rows) {
    |before| <= |after| && forall i: nat :: i < |before| ==> Grows(before[i], after[i])
  }

  lemma StepGrows(before: Rows, op: Op, after: Rows)
    requires Timely(before, op) && Performs(before, op, after)
    ensures Grown(before, after)
  {
    if op.Create? && after != before + [Inserted(op.q, op.now)] {
      var i: nat :| IsNewest(before, op.q.scope, op.q.key, i) && Live(before[i])
                    && after == before[i := Updated(before[i], op.q, op.now)];
      assert Grows(before[i], after[i]);
    }
  }

  lemma {:induction false} HistoriesGrow(tables: seq<Rows>, ops: seq<Op>, a: nat, b: nat)
    requires History(tables, ops) && a <= b < |tables|
    ensures Grown(tables[a], tables[b])
    decreases b - a
  {
    if a < b {
      HistoriesGrow(tables, ops, a, b - 1);
      StepGrows(tables[b - 1], ops[b - 1], tables[b]);
      forall i: nat | i < |tables[a]|
        ensures Grows(tables[a][i], tables[b][i])
      {
        assert Grows(tables[a][i], tables[b - 1][i]) && Grows(tables[b - 1][i], tables[b][i]);
      }
    }
  }

  predicate Staged(before: Rows, after: Rows) {
    |before| <= |after| && forall i: nat :: i < |before| ==> Stage(before[i]) <= Stage(after[i])
  }

  /** The statuses this service itself writes. */
  predicate Usual(op: Op) { op.Create? ==> op.q.status == ACTIVE || op.q.status == CANDIDATE }

  ghost predicate UsualRows(rows: Rows) {
    forall i: nat :: i < |rows| ==>
      rows[i].status == ACTIVE || rows[i].status == CANDIDATE || rows[i].status == REJECTED
  }

  lemma StepIsStaged(before: Rows, op: Op, after: Rows)
    requires Performs(before, op, after) && Usual(op) && UsualRows(before)
    ensures Staged(before, after) && UsualRows(after)
  {
    if op.Create? && after != before + [Inserted(op.q, op.now)] {
      var i: nat :| IsNewest(before, op.q.scope, op.q.key, i) && Live(before[i])
                    && after == before[i := Updated(before[i], op.q, op.now)];
      assert Stage(before[i]) <= Stage(after[i]);
    }
  }

  /** Over any history of its own statuses, a row only moves from candidate to active to rejected. */
  lemma {:induction false} LifecycleIsOneWay(tables: seq<Rows>, ops: seq<Op>, a: nat, b: nat)
    requires History(tables, ops) && a <= b < |tables| && forall k :: 0 <= k < |ops| ==> Usual(ops[k])
    ensures UsualRows(tables[b]) && Staged(tables[a], tables[b])
    decreases b, b - a
  {
    hide Performs, UsualRows, Staged, Usual;
    if b == 0 {
      NothingIsUsual();
    } else {
      LifecycleIsOneWay(tables, ops, if a < b then a else b - 1, b - 1);
      StepIsStaged(tables[b - 1], ops[b - 1], tables[b]);
      StagesAdd(tables[if a < b then a else b - 1], tables[b - 1], tables[b]);
    }
    StaysStaged(tables[b]);
  }

  lemma NothingIsUsual()
    ensures UsualRows([])
  {
  }

  lemma StaysStaged(rows: Rows)
    ensures Staged(rows, rows)
  {
  }

  lemma StagesAdd(first: Rows, second: Rows, third: Rows)
    requires Staged(first, second) && Staged(second, third)
    ensures Staged(first, third)
  {
    forall i: nat | i < |first|
      ensures Stage(first[i]) <= Stage(third[i])
    {
      assert Stage(first[i]) <= Stage(second[i]) <= Stage(third[i]);
    }
  }

  // ------------------------------------------------------------------- the table

  class MemoryTable {
    var rows: Rows

    constructor ()
      ensures rows == [] && Sound(rows)
    {
      rows := [];
    }

    /** `_find_by_key` without a status. */
    method FindByKey(scope: string, key: string) returns (found: Option<nat>)
      ensures found.Some? ==> IsNewest(rows, scope, key, found.value)
      ensures found.None? ==> forall i: nat :: i < |rows| ==> !Under(rows[i], scope, key)
    {
      found := None;
      for i := 0 to |rows|
        invariant found.Some? ==> found.value < i && Under(rows[found.value], scope, key)
        invariant forall j: nat :: j < i && Under(rows[j], scope, key)
                                   ==> found.Some? && rows[j].updatedAt <= rows[found.value].updatedAt
      {
        if Under(rows[i], scope, key) && (found.None? || rows[found.value].updatedAt < rows[i].updatedAt) {
          found := Some(i);
        }
      }
    }

    /** `create_memory` once its key and content are normal: the row's id is returned. */
    method Upsert(q: Request, now: int) returns (id: nat)
      modifies this
      ensures Performs(old(rows), Create(q, now), rows)
      ensures id < |rows| && Under(rows[id], q.scope, q.key) && rows[id].isActive
      ensures rows[id].details.content == q.details.content
      ensures if id == |old(rows)| then rows[id] == Inserted(q, now)
              else (IsNewest(old(rows), q.scope, q.key, id) && Live(old(rows)[id])
                    && rows[id] == Updated(old(rows)[id], q, now))
      ensures old(LiveIsNewest(rows)) && Timely(old(rows), Create(q, now)) ==> LiveIsNewest(rows)
      ensures old(Sound(rows)) && Timely(old(rows), Create(q, now)) && q.status != REJECTED ==> Sound(rows)
    {
      ghost var before := rows;
      var existing := FindByKey(q.scope, q.key);
      if existing.Some? && rows[existing.value].status != REJECTED {
        id := existing.value;
        rows := rows[id := Updated(rows[id], q, now)];
      } else {
        id := |rows|;
        rows := rows + [Inserted(q, now)];
      }
      if LiveIsNewest(before) && Timely(before, Create(q, now)) {
        CreateKeepsLiveNewest(before, q, now, rows);
        if Sound(before) && q.status != REJECTED {
          StepIsSound(before, Create(q, now), rows);
        }
      }
    }

    method CreateMemory(scope: string, key: string, details: Details, status: string,
                        confidence: real, importance: real, low: Lowering, now: int) returns (id: nat)
      modifies this
      ensures var q := Asked(scope, key, details, status, confidence, importance, low);
              && Performs(old(rows), Create(q, now), rows)
              && id < |rows| && Under(rows[id], scope, q.key) && rows[id].details.content == q.details.content
              && rows[id].details.content == NormalizeMemory(details.content)
              && rows[id].key == NormalizeKey(
                   if key == "" then InferKey(details.category, NormalizeMemory(details.content)) else key, low)
              && (old(LiveIsNewest(rows)) && Timely(old(rows), Create(q, now)) ==> LiveIsNewest(rows))
              && (old(Sound(rows)) && Timely(old(rows), Create(q, now)) && status != REJECTED ==> Sound(rows))
    {
      var q := Asked(scope, key, details, status, confidence, importance, low);
      id := Upsert(q, now);
    }

    method DeleteMemory(scope: string, id: nat, now: int) returns (deleted: bool)
      modifies this
      ensures Performs(old(rows), Delete(scope, id, now), rows)
      ensures deleted <==> id < |rows| && rows[id].scope == scope
      ensures deleted ==> rows[id].status == REJECTED && !rows[id].isActive
      ensures old(LiveIsNewest(rows)) && Timely(old(rows), Delete(scope, id, now)) ==>
                (LiveIsNewest(rows) <==> !old(Restamps(rows, Delete(scope, id, now))))
      ensures old(Sound(rows)) && Timely(old(rows), Delete(scope, id, now)) ==> Sound(rows)
    {
      ghost var before := rows;
      deleted := id < |rows| && rows[id].scope == scope;
      if deleted {
        rows := rows[id := Rejection(rows[id], now)];
      }
      if LiveIsNewest(before) && Timely(before, Delete(scope, id, now)) {
        StepKeepsLiveNewestExactly(before, Delete(scope, id, now), rows);
        if Sound(before) {
          StepIsSound(before, Delete(scope, id, now), rows);
        }
      }
    }

    method DeactivateAllMemories(scope: string, now: int)
      modifies this
      ensures Performs(old(rows), DeactivateAll(scope, now), rows)
      ensures |rows| == |old(rows)|
      ensures forall i: nat :: i < |rows| ==>
                var m := old(rows)[i];
                rows[i] == if m.scope == scope then m.(status := "rejected", isActive := false, updatedAt := now) else m
      ensures old(LiveIsNewest(rows)) && Timely(old(rows), DeactivateAll(scope, now)) ==> LiveIsNewest(rows)
      ensures old(Sound(rows)) && Timely(old(rows), DeactivateAll(scope, now)) ==> Sound(rows)
    {
      ghost var before := rows;
      for i := 0 to |rows|
        invariant |rows| == |before|
        invariant forall j: nat :: j < |before| ==>
                    rows[j] == if j < i then Deactivated(before[j], scope, now) else before[j]
      {
        rows := rows[i := Deactivated(rows[i], scope, now)];
      }
      if LiveIsNewest(before) && Timely(before, DeactivateAll(scope, now)) {
        StepKeepsLiveNewestExactly(before, DeactivateAll(scope, now), rows);
        if Sound(before) {
          StepIsSound(before, DeactivateAll(scope, now), rows);
        }
      }
    }

    /** The bookkeeping of `format_memory_context` on the rows it picked, in their order. */
    method RecallMemories(scope: string, picked: seq<nat>, now: int)
      requires Recallable(rows, scope, Elements(picked))
      requires forall i, j :: 0 <= i < j < |picked| ==> picked[i] != picked[j]
      modifies this
      ensures Performs(old(rows), Recall(scope, Elements(picked), now), rows)
      ensures |rows| == |old(rows)|
      ensures forall i: nat :: i < |rows| ==>
                var m := old(rows)[i];
                rows[i] == if i in picked
                           then m.(useCount := m.useCount + 1, lastUsedAt := Some(now), updatedAt := now) else m
      ensures old(LiveIsNewest(rows)) && Timely(old(rows), Recall(scope, Elements(picked), now)) ==> LiveIsNewest(rows)
      ensures old(Sound(rows)) && Timely(old(rows), Recall(scope, Elements(picked), now)) ==> Sound(rows)
    {
      ghost var before := rows;
      for k := 0 to |picked|
        invariant Recalls(before, Elements(picked[..k]), now, rows)
      {
        assert picked[k] in Elements(picked);
        assert picked[..k + 1] == picked[..k] + [picked[k]];
        rows := rows[picked[k] := Used(rows[picked[k]], now)];
      }
      assert picked[..|picked|] == picked;
      if LiveIsNewest(before) && Timely(before, Recall(scope, Elements(picked), now)) {
        StepKeepsLiveNewestExactly(before, Recall(scope, Elements(picked), now), rows);
        if Sound(before) {
          StepIsSound(before, Recall(scope, Elements(picked), now), rows);
        }
      }
    }
  }

  /**
   The endpoint accepts any status. Creating under the status "rejected" and
   deleting that row again later leaves two live rows under one key.
   */
  method RejectedCreateBreaksUniqueness(q: Request) returns (table: MemoryTable)
    ensures fresh(table) && !LiveIsNewest(table.rows)
    ensures exists i: nat, j: nat :: i < j < |table.rows| && SameKey(table.rows[i], table.rows[j])
                                     && table.rows[i].status == ACTIVE && table.rows[j].status == ACTIVE
  {
    hide Updated, Timely, Sound;
    table := new MemoryTable();
    var _ := table.Upsert(q.(status := REJECTED), 1);
    assert |table.rows| == 1;
    var first := table.Upsert(q.(status := ACTIVE), 2);
    assert |table.rows| == 2 && first == 1;
    var _ := table.DeleteMemory(q.scope, 0, 3);
    var second := table.Upsert(q.(status := ACTIVE), 4);
    assert second == 2 && SameKey(table.rows[1], table.rows[2]);
  }
}
