/**
 * `calculate_metrics`: the summary of one region's records for a latency
 * threshold — mean latency, 95th-percentile latency, mean uptime (each
 * rounded to two decimals) and the number of readings above the threshold.
 */
module Metrics {
  import opened Stats
  import opened Dataset

  /** The four figures reported for one region. */
  datatype MetricsResult = MetricsResult(
    avgLatency: real,
    p95Latency: real,
    avgUptime: real,
    breaches: nat)

  /** What is reported for a region without records. */
  const ZeroMetrics := MetricsResult(0.0, 0.0, 0.0, 0)

  /** The two numeric columns the summary reads. */
  datatype Field = LatencyMs | UptimePct

  function Value(r: Record, f: Field): real
  {
    match f
    case LatencyMs => r.latency
    case UptimePct => r.uptime
  }

  /** One numeric column of the records, in record order (`df_filtered['latency_ms']`). */
  function Column(rs: seq<Record>, f: Field): (c: seq<real>)
    ensures |c| == |rs|
    ensures forall i :: 0 <= i < |rs| ==> c[i] == Value(rs[i], f)
  {
    if rs == [] then [] else [Value(rs[0], f)] + Column(rs[1..], f)
  }

  /** The `latency_ms` column. */
  function Latencies(rs: seq<Record>): (l: seq<real>)
    ensures |l| == |rs|
    ensures forall i :: 0 <= i < |rs| ==> l[i] == rs[i].latency
  {
    Column(rs, LatencyMs)
  }

  /** The `uptime_pct` column. */
  function Uptimes(rs: seq<Record>): (u: seq<real>)
    ensures |u| == |rs|
    ensures forall i :: 0 <= i < |rs| ==> u[i] == rs[i].uptime
  {
    Column(rs, UptimePct)
  }

  /**
   * `calculate_metrics(df_filtered, threshold)`: all zeros for no records;
   * otherwise the rounded means and 95th percentile and the breach count.
   * The integer threshold is compared with each latency as a real.
   */
  function CalculateMetrics(rs: seq<Record>, threshold: int): (m: MetricsResult)
    ensures rs == [] ==> m == ZeroMetrics
    ensures m.breaches <= |rs|
  {
    if rs == [] then ZeroMetrics
    else
      var latencies := Latencies(rs);
      var uptimes := Uptimes(rs);
      MetricsResult(
        Round2(Mean(latencies)),
        Round2(Percentile95(latencies)),
        Round2(Mean(uptimes)),
        CountAbove(latencies, threshold as real))
  }

  // ---------------------------------------------------------------------------
  // Lemmas
  // ---------------------------------------------------------------------------

  /** Removing the element at position i removes one copy of it from the multiset. */
  lemma MultisetRemoveAt(s: seq<Record>, i: nat)
    requires i < |s|
    ensures multiset(s[..i] + s[i + 1..]) == multiset(s) - multiset{s[i]}
  {
    assert s == s[..i] + [s[i]] + s[i + 1..];
  }

  /** The column of a concatenation is the concatenation of the columns. */
  lemma {:induction false} ColumnAppend(a: seq<Record>, b: seq<Record>, f: Field)
    ensures Column(a + b, f) == Column(a, f) + Column(b, f)
  {
    if a == [] {
      assert a + b == b;
    } else {
      assert (a + b)[1..] == a[1..] + b;
      ColumnAppend(a[1..], b, f);
    }
  }

  /** The column of records without position i is the column without position i. */
  lemma ColumnRemoveAt(s: seq<Record>, i: nat, f: Field)
    requires i < |s|
    ensures multiset(Column(s[..i] + s[i + 1..], f)) == multiset(Column(s, f)) - multiset{Value(s[i], f)}
  {
    var front, back, v := Column(s[..i], f), Column(s[i + 1..], f), Value(s[i], f);
    assert Column(s[..i] + s[i + 1..], f) == front + back by {
      ColumnAppend(s[..i], s[i + 1..], f);
    }
    assert Column(s, f) == front + ([v] + back) by {
      assert s == s[..i] + ([s[i]] + s[i + 1..]);
      ColumnAppend(s[..i], [s[i]] + s[i + 1..], f);
      ColumnAppend([s[i]], s[i + 1..], f);
    }
    MultisetWithout(front, v, back);
  }

  /** Taking one copy of v out of `front + [v] + back` leaves `front + back`. */
  lemma MultisetWithout(front: seq<real>, v: real, back: seq<real>)
    ensures multiset(front + ([v] + back)) - multiset{v} == multiset(front + back)
  {
    assert multiset(front + ([v] + back)) == multiset(front + back) + multiset{v};
  }

  /** The column of records without the first is the column without its first value. */
  lemma ColumnRemoveFirst(s: seq<Record>, f: Field)
    requires |s| > 0
    ensures multiset(Column(s[1..], f)) == multiset(Column(s, f)) - multiset{Value(s[0], f)}
  {
    var c := Column(s, f);
    assert Column(s[1..], f) == c[1..];
    assert c == [c[0]] + c[1..];
  }

  /** Two multisets that hold y and agree once one copy of y is removed are equal. */
  lemma SameAfterRemoval(m: multiset<real>, n: multiset<real>, y: real)
    requires y in m && y in n && m - multiset{y} == n - multiset{y}
    ensures m == n
  {
    assert m == (m - multiset{y}) + multiset{y};
    assert n == (n - multiset{y}) + multiset{y};
  }

  /** Reordering the records reorders the column: its multiset of values is unchanged. */
  lemma {:induction false} ColumnPermutation(a: seq<Record>, b: seq<Record>, f: Field)
    requires multiset(a) == multiset(b)
    ensures multiset(Column(a, f)) == multiset(Column(b, f))
  {
    if a != [] {
      var x := a[0];
      assert x in b by {
        assert x in multiset(a);
      }
      var i :| 0 <= i < |b| && b[i] == x;
      var a', b' := a[1..], b[..i] + b[i + 1..];
      assert multiset(a') == multiset(b') by {
        assert a == [x] + a';
        MultisetRemoveAt(b, i);
      }
      ColumnPermutation(a', b', f);
      var y := Value(x, f);
      var ma, mb := multiset(Column(a, f)), multiset(Column(b, f));
      assert ma - multiset{y} == mb - multiset{y} by {
        ColumnRemoveFirst(a, f);
        ColumnRemoveAt(b, i, f);
      }
      assert y in ma && y in mb by {
        assert Column(a, f)[0] == y && Column(b, f)[i] == y;
      }
      SameAfterRemoval(ma, mb, y);
    } else {
      assert b == [] by {
        assert |b| == |multiset(b)| == |multiset(a)| == 0;
      }
    }
  }

  /**
   * The result depends only on which records are given, not on their order
   * (sum, mean, percentile and count are all order-independent).
   */
  lemma CalculateMetricsPermutation(a: seq<Record>, b: seq<Record>, threshold: int)
    requires multiset(a) == multiset(b)
    ensures CalculateMetrics(a, threshold) == CalculateMetrics(b, threshold)
  {
    assert |a| == |multiset(a)| == |multiset(b)| == |b|;
    if a != [] {
      ColumnPermutation(a, b, LatencyMs);
      ColumnPermutation(a, b, UptimePct);
      MeanPermutation(Latencies(a), Latencies(b));
      MeanPermutation(Uptimes(a), Uptimes(b));
      Percentile95Permutation(Latencies(a), Latencies(b));
      CountAbovePermutation(Latencies(a), Latencies(b), threshold as real);
    }
  }

  /** The records whose latency is strictly above the threshold, by position. */
  function BreachingPositions(rs: seq<Record>, threshold: int): set<int>
  {
    set i | 0 <= i < |rs| && rs[i].latency > threshold as real
  }

  /**
   * `breaches` is the number of records whose latency is strictly greater
   * than the threshold; for no records it is 0.
   */
  lemma BreachesCount(rs: seq<Record>, threshold: int)
    ensures CalculateMetrics(rs, threshold).breaches == |BreachingPositions(rs, threshold)|
  {
    if rs != [] {
      CountAboveIsIndexCount(Latencies(rs), threshold as real);
      assert IndicesAbove(Latencies(rs), threshold as real) == BreachingPositions(rs, threshold);
    }
  }

  /** A record whose latency equals the threshold is never a breach. */
  lemma LatencyAtThresholdIsNoBreach(rs: seq<Record>, x: Record, threshold: int)
    requires x.latency == threshold as real
    ensures CalculateMetrics(rs + [x], threshold).breaches == CalculateMetrics(rs, threshold).breaches
  {
    BreachesCount(rs, threshold);
    BreachesCount(rs + [x], threshold);
    assert BreachingPositions(rs + [x], threshold) == BreachingPositions(rs, threshold);
  }

  /**
   * For records present, the reported average latency is the mean of the
   * latencies rounded to hundredths, and that mean lies between the smallest
   * and the largest latency.
   */
  lemma AverageLatencyBounds(rs: seq<Record>, threshold: int)
    requires rs != []
    ensures var l := Latencies(rs);
            && Min(l) <= Mean(l) <= Max(l)
            && -0.005 <= CalculateMetrics(rs, threshold).avgLatency - Mean(l) <= 0.005
  {
    MeanBetweenMinMax(Latencies(rs));
  }

  /**
   * For records present, the reported average uptime is the mean of the
   * uptimes rounded to hundredths, and that mean lies between the smallest
   * and the largest uptime.
   */
  lemma AverageUptimeBounds(rs: seq<Record>, threshold: int)
    requires rs != []
    ensures var u := Uptimes(rs);
            && Min(u) <= Mean(u) <= Max(u)
            && -0.005 <= CalculateMetrics(rs, threshold).avgUptime - Mean(u) <= 0.005
  {
    MeanBetweenMinMax(Uptimes(rs));
  }

  /**
   * Uptime percentages within [0, 100] give an unrounded average uptime
   * within [0, 100].
   */
  lemma AverageUptimeIsPercentage(rs: seq<Record>)
    requires rs != []
    requires forall i :: 0 <= i < |rs| ==> 0.0 <= rs[i].uptime <= 100.0
    ensures 0.0 <= Mean(Uptimes(rs)) <= 100.0
  {
    MeanBounds(Uptimes(rs), 0.0, 100.0);
  }

  /**
   * For records present, the reported 95th-percentile latency is numpy's
   * linear percentile rounded to hundredths, and that percentile lies
   * between the smallest and the largest latency.
   */
  lemma Percentile95LatencyBounds(rs: seq<Record>, threshold: int)
    requires rs != []
    ensures var l := Latencies(rs);
            && Min(l) <= Percentile95(l) <= Max(l)
            && -0.005 <= CalculateMetrics(rs, threshold).p95Latency - Percentile95(l) <= 0.005
  {
    Percentile95Bounds(Latencies(rs));
  }
}
