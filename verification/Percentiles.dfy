/**
 Latency percentiles of an evaluation run (tools/ragas_observability_eval.py):
 linear interpolation between the sorted finite values.
 */
module Percentiles {
  import opened Ranking

  datatype Number = Finite(value: real) | NotFinite

  datatype Reading = Missing | Value(value: real) | IndexError

  function FiniteValues(values: seq<Number>): seq<real> {
    if values == [] then []
    else (if values[0].Finite? then [values[0].value] else []) + FiniteValues(values[1..])
  }

  function Negated(x: real): real { -x }

  /** Python's `sorted`. */
  function Sorted(s: seq<real>): (r: seq<real>)
    ensures |r| == |s|
  {
    SortDescending(s, Negated)
  }

  ghost predicate Ascending(s: seq<real>) {
    forall i, j :: 0 <= i < j < |s| ==> s[i] <= s[j]
  }

  function Ceiling(x: real): int { -(-x).Floor }

  /** Python indexing: from the end when negative. */
  function At(s: seq<real>, i: int): Reading {
    if 0 <= i < |s| then Value(s[i]) else if -|s| <= i < 0 then Value(s[|s| + i]) else IndexError
  }

  function Rank(n: nat, pct: real): real { (n - 1) as real * pct / 100.0 }

  function Mix(low: real, high: real, part: real): real { low + (high - low) * part }

  function ReadAt(clean: seq<real>, pct: real): Reading {
    if clean == [] then Missing
    else if |clean| == 1 then Value(clean[0])
    else
      var rank := Rank(|clean|, pct);
      var lower, upper := rank.Floor, Ceiling(rank);
      if lower == upper then At(clean, lower)
      else
        var low, high := At(clean, lower), At(clean, upper);
        if low.Value? && high.Value? then Value(Mix(low.value, high.value, rank - lower as real))
        else IndexError
  }

  function Percentile(values: seq<Number>, pct: real): Reading {
    ReadAt(Sorted(FiniteValues(values)), pct)
  }

  // ------------------------------------------------------------------- the sorted list

  lemma SortedIsAscending(s: seq<real>)
    ensures Ascending(Sorted(s)) && multiset(Sorted(s)) == multiset(s)
  {
    SortsStably(s, Negated);
    forall i, j | 0 <= i < j < |s|
      ensures Sorted(s)[i] <= Sorted(s)[j]
    {
      assert Negated(Sorted(s)[i]) >= Negated(Sorted(s)[j]);
    }
  }

  /** How many elements are at most, or below, `v`. */
  function AtMost(s: seq<real>, v: real): nat {
    if s == [] then 0 else (if s[0] <= v then 1 else 0) + AtMost(s[1..], v)
  }

  function Below(s: seq<real>, v: real): nat {
    if s == [] then 0 else (if s[0] < v then 1 else 0) + Below(s[1..], v)
  }

  lemma {:induction false} InsertCounts(x: real, s: seq<real>, v: real)
    ensures AtMost(Insert(x, s, Negated), v) == AtMost([x] + s, v)
    ensures Below(Insert(x, s, Negated), v) == Below([x] + s, v)
  {
    assert ([x] + s)[1..] == s;
    if s != [] && Negated(s[0]) > Negated(x) {
      InsertCounts(x, s[1..], v);
      var rest := Insert(x, s[1..], Negated);
      assert ([s[0]] + rest)[1..] == rest && ([x] + s[1..])[1..] == s[1..];
    }
  }

  lemma {:induction false} SortingCounts(s: seq<real>, v: real)
    ensures AtMost(Sorted(s), v) == AtMost(s, v) && Below(Sorted(s), v) == Below(s, v)
  {
    if s != [] {
      SortingCounts(s[1..], v);
      var rest := Sorted(s[1..]);
      InsertCounts(s[0], rest, v);
      assert ([s[0]] + rest)[1..] == rest;
    }
  }

  lemma {:induction false} PrefixCounts(s: seq<real>, k: nat, v: real)
    requires k <= |s|
    ensures (forall i :: 0 <= i < k ==> s[i] <= v) ==> AtMost(s, v) >= k
    ensures (forall i :: k <= i < |s| ==> v <= s[i]) ==> Below(s, v) <= k
  {
    if s != [] {
      PrefixCounts(s[1..], if k > 0 then k - 1 else 0, v);
      assert forall i :: 1 <= i < |s| ==> s[i] == s[1..][i - 1];
    }
  }

  // ------------------------------------------------------------------- interpolation

  function Interpolated(s: seq<real>, rank: real): real
    requires s != [] && 0.0 <= rank <= (|s| - 1) as real
  {
    var lower := rank.Floor;
    var upper := if lower + 1 < |s| then lower + 1 else lower;
    Mix(s[lower], s[upper], rank - lower as real)
  }

  lemma MixBetween(low: real, high: real, part: real)
    requires low <= high && 0.0 <= part <= 1.0
    ensures low <= Mix(low, high, part) <= high
    ensures part == 0.0 ==> Mix(low, high, part) == low
  {
    Scales(high - low, 0.0, part);
    Scales(high - low, part, 1.0);
  }

  lemma MixGrows(low: real, high: real, p: real, q: real)
    requires low <= high && p <= q
    ensures Mix(low, high, p) <= Mix(low, high, q)
  {
    Scales(high - low, p, q);
  }

  lemma Scales(k: real, a: real, b: real)
    requires k >= 0.0
    ensures a <= b ==> k * a <= k * b
    ensures k > 0.0 && a < b ==> k * a < k * b
  {
    assert k * b - k * a == k * (b - a);
  }

  lemma LessThanQuotient(p: real, c: real, m: real)
    requires m > 0.0
    ensures p < c / m <==> m * p < c
  {
    var q := c / m;
    assert q * m == c;
    if p < q {
      assert p * m < q * m;
    } else {
      assert p * m >= q * m;
    }
    assert p * m == m * p;
  }

  lemma RankFacts(m: real, pct: real, rank: real)
    requires m >= 0.0 && rank == m * pct / 100.0
    ensures 0.0 <= pct <= 100.0 ==> 0.0 <= rank <= m
    ensures m > 0.0 && pct > 100.0 ==> rank > m
    ensures m > 0.0 && pct <= 100.0 ==> rank <= m
  {
    Scales(m, 0.0, pct);
    Scales(m, pct, 100.0);
    Scales(m, 100.0, pct);
  }

  lemma RankBounds(n: nat, pct: real)
    requires n > 0
    ensures 0.0 <= pct <= 100.0 ==> 0.0 <= Rank(n, pct) <= (n - 1) as real
    ensures n > 1 ==> (Rank(n, pct) > (n - 1) as real <==> pct > 100.0)
    ensures n > 1 ==> (Rank(n, pct) < -(n as real) <==> pct < -100.0 * n as real / (n - 1) as real)
  {
    RankFacts((n - 1) as real, pct, Rank(n, pct));
    if n > 1 {
      LessThanQuotient(pct, -100.0 * n as real, (n - 1) as real);
    }
  }

  lemma RankGrows(n: nat, p: real, q: real)
    requires n > 0 && p <= q
    ensures Rank(n, p) <= Rank(n, q)
  {
    Scales((n - 1) as real, p, q);
  }

  lemma ReadingInterpolates(clean: seq<real>, pct: real)
    requires clean != [] && 0.0 <= pct <= 100.0
    ensures 0.0 <= Rank(|clean|, pct) <= (|clean| - 1) as real
    ensures ReadAt(clean, pct) == Value(Interpolated(clean, Rank(|clean|, pct)))
  {
    RankBounds(|clean|, pct);
    var rank := Rank(|clean|, pct);
    var lower := rank.Floor;
    if lower as real == rank {
      assert Ceiling(rank) == lower;
      var upper := if lower + 1 < |clean| then lower + 1 else lower;
      assert Mix(clean[lower], clean[upper], 0.0) == clean[lower];
    } else {
      assert Ceiling(rank) == lower + 1;
    }
  }

  /** The interpolated value lies between its two neighbours. */
  lemma InterpolatedBetween(s: seq<real>, rank: real)
    requires Ascending(s) && s != [] && 0.0 <= rank <= (|s| - 1) as real
    ensures s[rank.Floor] <= Interpolated(s, rank) <= s[Ceiling(rank)]
  {
    var lower := rank.Floor;
    if lower + 1 < |s| {
      MixBetween(s[lower], s[lower + 1], rank - lower as real);
    } else {
      MixBetween(s[lower], s[lower], rank - lower as real);
    }
  }

  lemma InterpolatedIsMonotone(s: seq<real>, a: real, b: real)
    requires Ascending(s) && s != [] && 0.0 <= a <= b <= (|s| - 1) as real
    ensures Interpolated(s, a) <= Interpolated(s, b)
  {
    if a.Floor == b.Floor {
      var lower := a.Floor;
      if lower + 1 < |s| {
        MixGrows(s[lower], s[lower + 1], a - lower as real, b - lower as real);
      }
    } else {
      InterpolatedBetween(s, a);
      InterpolatedBetween(s, b);
      assert Ceiling(a) <= b.Floor;
    }
  }

  // ------------------------------------------------------------------- what percentiles promise

  lemma ReadingIsMonotone(clean: seq<real>, p: real, q: real)
    requires clean != [] && Ascending(clean) && 0.0 <= p <= q <= 100.0
    ensures ReadAt(clean, p).Value? && ReadAt(clean, q).Value? && ReadAt(clean, p).value <= ReadAt(clean, q).value
  {
    ReadingInterpolates(clean, p);
    ReadingInterpolates(clean, q);
    RankGrows(|clean|, p, q);
    InterpolatedIsMonotone(clean, Rank(|clean|, p), Rank(|clean|, q));
  }

  /** A higher percentage never gives a lower value. */
  lemma PercentileIsMonotone(values: seq<Number>, p: real, q: real)
    requires FiniteValues(values) != [] && 0.0 <= p <= q <= 100.0
    ensures Percentile(values, p).Value? && Percentile(values, q).Value?
    ensures Percentile(values, p).value <= Percentile(values, q).value
  {
    SortedIsAscending(FiniteValues(values));
    ReadingIsMonotone(Sorted(FiniteValues(values)), p, q);
  }

  lemma EndsOfReading(clean: seq<real>)
    requires clean != []
    ensures ReadAt(clean, 0.0) == Value(clean[0]) && ReadAt(clean, 100.0) == Value(clean[|clean| - 1])
  {
    assert Rank(|clean|, 0.0) == 0.0 && Rank(|clean|, 100.0) == (|clean| - 1) as real;
  }

  /** Percentage 0 gives the smallest finite value and 100 the largest; both occur in the list. */
  lemma PercentileEnds(values: seq<Number>, v: real)
    requires v in FiniteValues(values)
    ensures Percentile(values, 0.0).Value? && Percentile(values, 100.0).Value?
    ensures Percentile(values, 0.0).value in FiniteValues(values)
            && Percentile(values, 100.0).value in FiniteValues(values)
    ensures Percentile(values, 0.0).value <= v <= Percentile(values, 100.0).value
  {
    var finite := FiniteValues(values);
    var clean := Sorted(finite);
    SortedIsAscending(finite);
    SortMembers(finite, Negated, v);
    SortMembers(finite, Negated, clean[0]);
    SortMembers(finite, Negated, clean[|clean| - 1]);
    EndsOfReading(clean);
  }

  /**
   What makes it a percentile: with n finite values, more than (n - 1) * pct / 100
   of them are at most the result, and fewer than one more than that lie below it.
   */
  lemma PercentileSplitsTheList(values: seq<Number>, pct: real)
    requires FiniteValues(values) != [] && 0.0 <= pct <= 100.0
    ensures var finite := FiniteValues(values);
            var r := Percentile(values, pct);
            r.Value? && AtMost(finite, r.value) as real > Rank(|finite|, pct)
            && Below(finite, r.value) as real < Rank(|finite|, pct) + 1.0
  {
    var finite := FiniteValues(values);
    var clean, rank := Sorted(finite), Rank(|finite|, pct);
    SortedIsAscending(finite);
    ReadingInterpolates(clean, pct);
    InterpolatedBetween(clean, rank);
    var v := Interpolated(clean, rank);
    hide Interpolated, ReadAt, Sorted, Rank;
    ReadingSplits(clean, rank, v);
    SortingCounts(finite, v);
  }

  lemma ReadingSplits(clean: seq<real>, rank: real, v: real)
    requires Ascending(clean) && clean != [] && 0.0 <= rank <= (|clean| - 1) as real
    requires clean[rank.Floor] <= v <= clean[Ceiling(rank)]
    ensures AtMost(clean, v) as real > rank && Below(clean, v) as real < rank + 1.0
  {
    hide AtMost, Below;
    PrefixCounts(clean, rank.Floor + 1, v);
    PrefixCounts(clean, Ceiling(rank), v);
  }

  lemma ReadingRaisesExactly(clean: seq<real>, pct: real)
    ensures var n := |clean|;
            ReadAt(clean, pct).IndexError?
            <==> n >= 2 && (pct > 100.0 || pct < -100.0 * n as real / (n - 1) as real)
  {
    var n := |clean|;
    if n >= 2 {
      RankBounds(n, pct);
      var rank := Rank(n, pct);
      assert rank.Floor < -n <==> rank < -(n as real);
    }
  }

  /**
   The value itself: with n finite values in ascending order, a rank (n - 1) * pct / 100
   between two neighbouring positions is read off the straight line between the
   values there, so that a whole rank gives the value at that position.
   */
  lemma PercentileInterpolates(values: seq<Number>, pct: real, k: nat, rank: real)
    requires 0.0 <= pct <= 100.0 && rank == (|FiniteValues(values)| - 1) as real * pct / 100.0
    requires k + 1 < |FiniteValues(values)| && k as real <= rank <= (k + 1) as real
    ensures var s := Sorted(FiniteValues(values));
            Percentile(values, pct) == Value(OnLine(s[k], s[k + 1], k, rank))
  {
    var s := Sorted(FiniteValues(values));
    ReadingInterpolates(s, pct);
    assert Rank(|s|, pct) == rank;
    hide Interpolated, ReadAt, Sorted, FiniteValues, Rank, OnLine;
    LineAt(s, rank, k);
  }

  /** The value at `rank` on the line through `low` at position k and `high` at position k + 1. */
  function OnLine(low: real, high: real, k: nat, rank: real): real {
    low * ((k + 1) as real - rank) + high * (rank - k as real)
  }

  lemma LineAt(s: seq<real>, rank: real, k: nat)
    requires k + 1 < |s| && k as real <= rank <= (k + 1) as real
    ensures Interpolated(s, rank) == OnLine(s[k], s[k + 1], k, rank)
  {
    var part := rank - k as real;
    var low, high := s[k], s[k + 1];
    assert low * (1.0 - part) + high * part == low + (high - low) * part;
    if rank == (k + 1) as real {
      assert part == 1.0 && rank.Floor == k + 1;
      assert low * 0.0 + high * 1.0 == high;
      var upper := if k + 2 < |s| then k + 2 else k + 1;
      assert Mix(s[k + 1], s[upper], 0.0) == high;
    } else {
      assert rank.Floor == k;
    }
  }

  /** The finite values, each as often as it occurs. */
  lemma {:induction false} FiniteValuesExactly(values: seq<Number>, v: real)
    ensures multiset(FiniteValues(values))[v] == multiset(values)[Finite(v)]
  {
    if values != [] {
      FiniteValuesExactly(values[1..], v);
      var head := if values[0].Finite? then [values[0].value] else [];
      assert values == [values[0]] + values[1..];
      assert FiniteValues(values) == head + FiniteValues(values[1..]);
      assert multiset(FiniteValues(values)) == multiset(head) + multiset(FiniteValues(values[1..]));
    }
  }

  /** A single finite value is every percentile. */
  lemma SingleValueIsEveryPercentile(values: seq<Number>, pct: real)
    requires |FiniteValues(values)| == 1
    ensures Percentile(values, pct) == Value(FiniteValues(values)[0])
  {
    SortedIsAscending(FiniteValues(values));
    var s, t := Sorted(FiniteValues(values)), FiniteValues(values);
    assert s == [s[0]] && t == [t[0]];
    assert s[0] in multiset(s) && s[0] in multiset(t);
  }

  /**
   The function does not check its percentage: with at least two finite values it
   raises exactly above 100, or so far below 0 that Python's negative indices end.
   */
  lemma PercentileRaisesExactly(values: seq<Number>, pct: real)
    ensures var n := |FiniteValues(values)|;
            Percentile(values, pct).IndexError?
            <==> n >= 2 && (pct > 100.0 || pct < -100.0 * n as real / (n - 1) as real)
  {
    ReadingRaisesExactly(Sorted(FiniteValues(values)), pct);
  }

  // ------------------------------------------------------------------- the summary

  datatype Latency = Latency(p50: Reading, p95: Reading, longest: Reading)

  function AllFinite(latencies: seq<real>): (r: seq<Number>)
    ensures FiniteValues(r) == latencies
  {
    if latencies == [] then [] else
      var rest := AllFinite(latencies[1..]);
      assert ([Finite(latencies[0])] + rest)[1..] == rest;
      [Finite(latencies[0])] + rest
  }

  /** The latency part of `build_summary`; measured latencies are finite. */
  method SummarizeLatency(latencies: seq<real>) returns (r: Latency)
    ensures r.p50 == Percentile(AllFinite(latencies), 50.0) && r.p95 == Percentile(AllFinite(latencies), 95.0)
    ensures latencies == [] <==> r == Latency(Missing, Missing, Missing)
    ensures latencies != [] ==>
              && r.p50.Value? && r.p95.Value? && r.longest.Value? && r.longest.value in latencies
              && (forall i :: 0 <= i < |latencies| ==> latencies[i] <= r.longest.value)
              && r.p50.value <= r.p95.value <= r.longest.value
  {
    var values := AllFinite(latencies);
    r := Latency(Percentile(values, 50.0), Percentile(values, 95.0), Missing);
    if latencies != [] {
      var longest := latencies[0];
      for i := 1 to |latencies|
        invariant longest in latencies && forall j :: 0 <= j < i ==> latencies[j] <= longest
      {
        if latencies[i] > longest {
          longest := latencies[i];
        }
      }
      PercentileIsMonotone(values, 50.0, 95.0);
      PercentileIsMonotone(values, 95.0, 100.0);
      PercentileEnds(values, longest);
      r := r.(longest := Value(longest));
    }
  }
}
