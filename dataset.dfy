/**
 * The telemetry records the service holds in memory: one reading per
 * region, service and day, fixed when the process starts and never changed.
 */
module Dataset {
  import opened Ascii

  /** One telemetry reading; `timestamp` is a YYYYMMDD date code kept as a plain integer. */
  datatype Record = Record(
    region: string,
    service: string,
    latency: real,
    uptime: real,
    timestamp: int)

  /** The twelve "apac" readings, one per day from 2025-03-01. */
  const ApacReadings: seq<Record> := [
      Record("apac", "payments", 206.53, 97.942, 20250301),
      Record("apac", "payments", 216.0, 99.289, 20250302),
      Record("apac", "recommendations", 136.47, 97.192, 20250303),
      Record("apac", "checkout", 224.4, 97.589, 20250304),
      Record("apac", "analytics", 215.35, 98.567, 20250305),
      Record("apac", "analytics", 230.57, 98.256, 20250306),
      Record("apac", "support", 198.59, 98.063, 20250307),
      Record("apac", "recommendations", 181.23, 99.136, 20250308),
      Record("apac", "payments", 220.27, 98.762, 20250309),
      Record("apac", "support", 115.38, 97.644, 20250310),
      Record("apac", "catalog", 210.07, 98.969, 20250311),
      Record("apac", "payments", 240.39, 97.53, 20250312)
    ]

  /** The twelve "emea" readings. */
  const EmeaReadings: seq<Record> := [
      Record("emea", "checkout", 178.48, 98.46, 20250301),
      Record("emea", "support", 169.27, 99.079, 20250302),
      Record("emea", "analytics", 199.58, 98.038, 20250303),
      Record("emea", "checkout", 212.44, 98.16, 20250304),
      Record("emea", "support", 215.56, 97.279, 20250305),
      Record("emea", "support", 207.96, 97.765, 20250306),
      Record("emea", "support", 146.69, 98.851, 20250307),
      Record("emea", "catalog", 133.16, 98.024, 20250308),
      Record("emea", "payments", 171.45, 97.933, 20250309),
      Record("emea", "analytics", 136.21, 99.248, 20250310),
      Record("emea", "checkout", 178.61, 98.066, 20250311),
      Record("emea", "analytics", 123.7, 99.195, 20250312)
    ]

  /** The twelve "amer" readings. */
  const AmerReadings: seq<Record> := [
      Record("amer", "payments", 145.8, 98.422, 20250301),
      Record("amer", "payments", 107.55, 97.53, 20250302),
      Record("amer", "payments", 213.97, 97.271, 20250303),
      Record("amer", "analytics", 191.78, 98.776, 20250304),
      Record("amer", "payments", 161.77, 98.71, 20250305),
      Record("amer", "payments", 185.96, 97.521, 20250306),
      Record("amer", "analytics", 206.21, 97.118, 20250307),
      Record("amer", "checkout", 184.43, 99.256, 20250308),
      Record("amer", "analytics", 169.43, 97.982, 20250309),
      Record("amer", "checkout", 146.48, 97.928, 20250310),
      Record("amer", "catalog", 169.78, 99.313, 20250311),
      Record("amer", "catalog", 125.87, 99.352, 20250312)
    ]

  /** The embedded dataset, in the order it is listed. */
  const Telemetry: seq<Record> := ApacReadings + EmeaReadings + AmerReadings

  /**
   * `df[df['region'] == region.lower()]`: the records whose stored region
   * equals the lower-cased request region, in dataset order. Only the request
   * side is lower-cased; a stored region is compared as it is.
   */
  function FilterByRegion(data: seq<Record>, region: string): (r: seq<Record>)
    ensures |r| <= |data|
    ensures forall i :: 0 <= i < |r| ==> r[i].region == Lower(region) && r[i] in data
  {
    if data == [] then []
    else
      var rest := FilterByRegion(data[1..], region);
      if data[0].region == Lower(region) then [data[0]] + rest else rest
  }

  /**
   * Filtering keeps the order of the data: filtering a concatenation is
   * concatenating the filtered parts.
   */
  lemma {:induction false} FilterAppend(a: seq<Record>, b: seq<Record>, region: string)
    ensures FilterByRegion(a + b, region) == FilterByRegion(a, region) + FilterByRegion(b, region)
  {
    if a == [] {
      assert a + b == b;
    } else {
      assert (a + b)[1..] == a[1..] + b;
      FilterAppend(a[1..], b, region);
    }
  }

  /**
   * Every matching record is kept exactly as often as it occurs in the data,
   * and no other record is kept.
   */
  lemma {:induction false} FilterCount(data: seq<Record>, region: string, x: Record)
    ensures multiset(FilterByRegion(data, region))[x] ==
            if x.region == Lower(region) then multiset(data)[x] else 0
  {
    if data != [] {
      FilterCount(data[1..], region, x);
      assert data == [data[0]] + data[1..];
    }
  }

  /** A record of the data is selected exactly when its region equals the lower-cased request. */
  lemma FilterMembership(data: seq<Record>, region: string, x: Record)
    ensures x in FilterByRegion(data, region) <==> x in data && x.region == Lower(region)
  {
    FilterCount(data, region, x);
    assert x in FilterByRegion(data, region) <==> x in multiset(FilterByRegion(data, region));
    assert x in data <==> x in multiset(data);
  }

  /** When every record matches, filtering keeps the whole data. */
  lemma {:induction false} FilterAllMatch(data: seq<Record>, region: string)
    requires forall i :: 0 <= i < |data| ==> data[i].region == Lower(region)
    ensures FilterByRegion(data, region) == data
  {
    if data != [] {
      FilterAllMatch(data[1..], region);
    }
  }

  /** When no record matches, filtering gives nothing (an unknown region is not an error). */
  lemma {:induction false} FilterNoneMatch(data: seq<Record>, region: string)
    requires forall i :: 0 <= i < |data| ==> data[i].region != Lower(region)
    ensures FilterByRegion(data, region) == []
  {
    if data != [] {
      FilterNoneMatch(data[1..], region);
    }
  }

  /** Request regions that lower-case alike select the same records. */
  lemma {:induction false} FilterCaseInsensitive(data: seq<Record>, a: string, b: string)
    requires Lower(a) == Lower(b)
    ensures FilterByRegion(data, a) == FilterByRegion(data, b)
  {
    if data != [] {
      FilterCaseInsensitive(data[1..], a, b);
    }
  }

  /** Each block of the embedded dataset holds the readings of one region. */
  lemma ReadingsRegions()
    ensures forall i :: 0 <= i < |ApacReadings| ==> ApacReadings[i].region == "apac"
    ensures forall i :: 0 <= i < |EmeaReadings| ==> EmeaReadings[i].region == "emea"
    ensures forall i :: 0 <= i < |AmerReadings| ==> AmerReadings[i].region == "amer"
  {
  }

  /** The embedded dataset knows exactly three regions. */
  lemma TelemetryRegions()
    ensures forall i :: 0 <= i < |Telemetry| ==> Telemetry[i].region in {"apac", "emea", "amer"}
  {
    ReadingsRegions();
    assert |ApacReadings| == 12 && |EmeaReadings| == 12;
  }

  /**
   * Every stored region of the embedded dataset is already lower case, so
   * comparing it as it is (what the service does) agrees with lower-casing
   * both sides.
   */
  lemma TelemetryRegionsLowerCase()
    ensures forall i :: 0 <= i < |Telemetry| ==> IsLowerCase(Telemetry[i].region)
    ensures forall i, region :: 0 <= i < |Telemetry| ==>
              (Lower(Telemetry[i].region) == Lower(region) <==> Telemetry[i].region == Lower(region))
  {
    TelemetryRegions();
    assert IsLowerCase("apac") && IsLowerCase("emea") && IsLowerCase("amer");
  }
}
