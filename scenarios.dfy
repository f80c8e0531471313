/**
 * Concrete requests against the embedded dataset: an unknown region, a
 * region asked for twice in different case, and the "apac" summary.
 */
module Scenarios {
  import opened Ascii
  import opened Dataset
  import opened Stats
  import opened Metrics
  import opened Handler

  lemma LowerMars()
    ensures Lower("mars") == "mars"
  {
    assert IsLowerCase("mars");
  }

  /** No reading of the embedded dataset belongs to "mars". */
  lemma NoMarsReadings()
    ensures FilterByRegion(Telemetry, "mars") == []
  {
    LowerMars();
    TelemetryRegions();
    FilterNoneMatch(Telemetry, "mars");
  }

  /** `{"regions": ["mars"], "threshold_ms": 100}` yields the all-zero summary under "mars". */
  lemma MarsScenario()
    ensures ExpectedResponse(Telemetry, MetricsRequest(["mars"], 100)).regions == map["mars" := ZeroMetrics]
    ensures ExpectedResponse(Telemetry, MetricsRequest(["mars"], 100)).order == ["mars"]
  {
    SingleRegionResponse(Telemetry, "mars", 100);
    LowerMars();
    NoMarsReadings();
  }

  lemma LowerAmer()
    ensures Lower("amer") == "amer" && Lower("AMER") == "amer"
  {
    assert IsLowerCase("amer");
  }

  /** `{"regions": ["amer", "AMER"]}` collapses to the single key "amer", listed once. */
  lemma DuplicateRegionScenario()
    ensures ExpectedResponse(Telemetry, MetricsRequest(["amer", "AMER"], 150)).regions.Keys == {"amer"}
    ensures ExpectedResponse(Telemetry, MetricsRequest(["amer", "AMER"], 150)).order == ["amer"]
  {
    LowerAmer();
    CaseVariantsResponse(Telemetry, "amer", "AMER", 150);
    CaseVariantsKeyOrder("amer", "AMER");
  }

  lemma LowerApac()
    ensures Lower("apac") == "apac"
  {
  }

  /** Every "apac" reading matches "apac". */
  lemma ApacBlockMatches()
    ensures FilterByRegion(ApacReadings, "apac") == ApacReadings
  {
    LowerApac();
    ReadingsRegions();
    FilterAllMatch(ApacReadings, "apac");
  }

  /** No "emea" reading matches "apac". */
  lemma EmeaBlockDoesNotMatch()
    ensures FilterByRegion(EmeaReadings, "apac") == []
  {
    LowerApac();
    ReadingsRegions();
    FilterNoneMatch(EmeaReadings, "apac");
  }

  /** No "amer" reading matches "apac". */
  lemma AmerBlockDoesNotMatch()
    ensures FilterByRegion(AmerReadings, "apac") == []
  {
    LowerApac();
    ReadingsRegions();
    FilterNoneMatch(AmerReadings, "apac");
  }

  /** The "apac" request selects exactly the twelve "apac" readings, in order. */
  lemma ApacRecords()
    ensures FilterByRegion(Telemetry, "apac") == ApacReadings
  {
    ApacBlockMatches();
    EmeaBlockDoesNotMatch();
    AmerBlockDoesNotMatch();
    FilterAppend(ApacReadings, EmeaReadings, "apac");
    assert FilterByRegion(ApacReadings + EmeaReadings, "apac") == ApacReadings;
    FilterAppend(ApacReadings + EmeaReadings, AmerReadings, "apac");
  }

  /**
   * The latencies of the first and the last six "apac" readings, written out
   * so that the arithmetic below works on six values at a time;
   * `ApacColumns` proves they are the dataset's own values.
   */
  const ApacEarlyLatencies: seq<real> := [206.53, 216.0, 136.47, 224.4, 215.35, 230.57]
  const ApacLateLatencies: seq<real> := [198.59, 181.23, 220.27, 115.38, 210.07, 240.39]

  /** The uptimes of the first and the last six "apac" readings. */
  const ApacEarlyUptimes: seq<real> := [97.942, 99.289, 97.192, 97.589, 98.567, 98.256]
  const ApacLateUptimes: seq<real> := [98.063, 99.136, 98.762, 97.644, 98.969, 97.53]

  lemma ApacEarlyColumns()
    ensures Latencies(ApacReadings[..6]) == ApacEarlyLatencies
    ensures Uptimes(ApacReadings[..6]) == ApacEarlyUptimes
  {
  }

  lemma ApacLateColumns()
    ensures Latencies(ApacReadings[6..]) == ApacLateLatencies
    ensures Uptimes(ApacReadings[6..]) == ApacLateUptimes
  {
  }

  /** The "apac" columns, as the concatenation of their halves. */
  lemma ApacColumns()
    ensures Latencies(ApacReadings) == ApacEarlyLatencies + ApacLateLatencies
    ensures Uptimes(ApacReadings) == ApacEarlyUptimes + ApacLateUptimes
  {
    assert ApacReadings == ApacReadings[..6] + ApacReadings[6..];
    ApacEarlyColumns();
    ApacLateColumns();
    ColumnAppend(ApacReadings[..6], ApacReadings[6..], LatencyMs);
    ColumnAppend(ApacReadings[..6], ApacReadings[6..], UptimePct);
  }

  lemma ApacBreachCount()
    ensures CountAbove(ApacEarlyLatencies + ApacLateLatencies, 200.0) == 8
  {
    assert CountAbove(ApacEarlyLatencies, 200.0) == 5;
    assert CountAbove(ApacLateLatencies, 200.0) == 3;
    CountAboveAppend(ApacEarlyLatencies, ApacLateLatencies, 200.0);
  }

  lemma ApacLatencyMean()
    ensures Round2(Mean(ApacEarlyLatencies + ApacLateLatencies)) == 199.60
  {
    assert Sum(ApacEarlyLatencies) == 1229.32;
    assert Sum(ApacLateLatencies) == 1165.93;
    SumAppend(ApacEarlyLatencies, ApacLateLatencies);
    assert Mean(ApacEarlyLatencies + ApacLateLatencies) == 2395.25 / 12.0;
  }

  lemma ApacUptimeMean()
    ensures Round2(Mean(ApacEarlyUptimes + ApacLateUptimes)) == 98.24
  {
    assert Sum(ApacEarlyUptimes) == 588.835;
    assert Sum(ApacLateUptimes) == 590.104;
    SumAppend(ApacEarlyUptimes, ApacLateUptimes);
    assert Mean(ApacEarlyUptimes + ApacLateUptimes) == 1178.939 / 12.0;
  }

  /** The first eleven "apac" latencies in dataset order: all but the largest, 240.39, which comes last. */
  const ApacLatenciesButLargest: seq<real> := ApacEarlyLatencies + ApacLateLatencies[..5]

  lemma ApacLargestLast()
    ensures ApacEarlyLatencies + ApacLateLatencies == ApacLatenciesButLargest + [240.39]
  {
    assert ApacLateLatencies == ApacLateLatencies[..5] + [240.39];
  }

  /** 230.57 is the largest of the other eleven latencies, and 240.39 exceeds them all. */
  lemma ApacSecondLargest()
    ensures 230.57 in ApacLatenciesButLargest
    ensures forall i :: 0 <= i < |ApacLatenciesButLargest| ==> ApacLatenciesButLargest[i] <= 230.57
  {
    assert forall i :: 0 <= i < |ApacEarlyLatencies| ==> ApacEarlyLatencies[i] <= 230.57;
    assert forall i :: 0 <= i < 5 ==> ApacLateLatencies[i] <= 230.57;
    assert ApacLatenciesButLargest[5] == 230.57;
  }

  /** Sorted, the "apac" latencies end with 230.57 and 240.39. */
  lemma ApacSortedTop()
    ensures |Sort(ApacEarlyLatencies + ApacLateLatencies)| == 12
    ensures Sort(ApacEarlyLatencies + ApacLateLatencies)[10] == 230.57
    ensures Sort(ApacEarlyLatencies + ApacLateLatencies)[11] == 240.39
  {
    ApacLargestLast();
    ApacSecondLargest();
    SortTopTwo(ApacLatenciesButLargest, 230.57, 240.39);
  }

  /** For twelve values numpy interpolates at rank 10.45, between positions 10 and 11. */
  lemma Rank95OfTwelve()
    ensures Rank95(12) == 10.45 && Lower95(12) == 10 && Upper95(12) == 11
  {
  }

  lemma Round234989()
    ensures Round2(234.989) == 234.99
  {
    assert RoundHalfEven(23498.9) == 23499;
  }

  /** The rounded 95th-percentile "apac" latency is 234.99. */
  lemma ApacLatencyP95()
    ensures Round2(Percentile95(ApacEarlyLatencies + ApacLateLatencies)) == 234.99
  {
    ApacSortedTop();
    Rank95OfTwelve();
    assert Percentile95(ApacEarlyLatencies + ApacLateLatencies) == Lerp(230.57, 240.39, 0.45);
    assert Lerp(230.57, 240.39, 0.45) == 234.989;
    Round234989();
  }

  /**
   * `{"regions": ["apac"], "threshold_ms": 200}`: eight of the twelve "apac"
   * readings exceed 200 ms, the average latency is 199.60, the
   * 95th-percentile latency 234.99 and the average uptime 98.24.
   */
  lemma ApacScenario()
    ensures var m := CalculateMetrics(FilterByRegion(Telemetry, "apac"), 200);
            m.breaches == 8 && m.avgLatency == 199.60 && m.p95Latency == 234.99 && m.avgUptime == 98.24
  {
    ApacRecords();
    ApacColumns();
    ApacBreachCount();
    ApacLatencyMean();
    ApacLatencyP95();
    ApacUptimeMean();
  }
}
