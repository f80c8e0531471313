# Telemetry latency metrics — a Dafny model

The service answers `POST /api/latency` with per-region statistics computed
over a small telemetry dataset that is embedded in the program. A request
holds a list of region names and a latency threshold in milliseconds. For
each requested region, in order, the handler does three things:

1. It selects the records whose stored region equals the lower-cased request
   region.
2. It summarises them with `calculate_metrics`: the average latency, the
   95th-percentile latency (numpy's default linear method) and the average
   uptime, each rounded to two decimals, plus the number of readings strictly
   above the threshold. A region without records gets all zeros.
3. It stores the summary under the lower-cased region name in a dict, so a
   later duplicate overwrites an earlier one and keeps its place.

The answer is `{"regions": {...}}`, with the keys in the order they were
first stored.

The model has six modules:

- `Ascii` (ascii.dfy): `str.lower()` on ASCII characters.
- `Stats` (stats.dfy): sum, mean, the 95th percentile (sort, then interpolate
  between the neighbours of rank `0.95 * (n - 1)`), the strict count above a
  threshold, and `round(x, 2)` with ties to even.
- `Dataset` (dataset.dfy): the `Record` type, the 36 embedded readings as a
  constant, and the region filter.
- `Metrics` (metrics.dfy): `MetricsResult` and `CalculateMetrics`.
- `Handler` (handler.dfy): the request and response types, the reference
  response `ExpectedResponse`, and the handler `GetTelemetryMetrics`. The
  response holds the entries as a map and the key order as a sequence. The
  handler is a method whose loop builds both; it is proved equal to the
  reference response.
- `Scenarios` (scenarios.dfy): concrete requests against the embedded data.

The dataset is a constant and no operation changes it. The model treats
numbers as exact reals.

The comparison at src/app.py:109 lower-cases only the request side and
compares the stored region as it is. Every stored region of the embedded data
is lower case, so this agrees with lower-casing both sides
(`Dataset.TelemetryRegionsLowerCase`).

## Model

| member | source | states |
|---|---|---|
| Ascii.Lower | src/app.py:109 | `region.lower()` keeps the length, maps each character through ASCII lower-casing, yields a lower-case string, and leaves an already lower-case string unchanged |
| Dataset.FilterByRegion | src/app.py:109 | every selected record has region equal to the lower-cased request and comes from the data; there are never more selected records than data records |
| Dataset.FilterAppend | src/app.py:109 | the boolean mask keeps dataset order: filtering a concatenation concatenates the filtered parts |
| Dataset.FilterCount | src/app.py:109 | each record is kept exactly as many times as it occurs when its region matches, and never otherwise |
| Dataset.FilterMembership | src/app.py:109 | a record is selected if and only if it is in the data and its region equals the lower-cased request |
| Dataset.FilterAllMatch | src/app.py:109 | when every record matches, the whole data is returned unchanged |
| Dataset.FilterNoneMatch | src/app.py:109 | when no record matches (an unknown region), the result is empty rather than an error |
| Dataset.FilterCaseInsensitive | src/app.py:109 | request regions that lower-case alike select the same records |
| Dataset.ReadingsRegions | src/app.py:31-66 | the three blocks of twelve embedded readings belong to "apac", "emea" and "amer" respectively |
| Dataset.TelemetryRegions | src/app.py:29-69 | every reading of the embedded dataset (the constant `Telemetry`) belongs to one of the three regions |
| Dataset.TelemetryRegionsLowerCase | src/app.py:29-69 | every stored region is lower case, so comparing it unlowered agrees with lower-casing both sides |
| Stats.Sum | src/app.py:86-88 | no contract of its own; additivity, bounds and order-independence are in `Stats.SumAppend`, `Stats.SumBounds` and `Stats.SumPermutation` |
| Stats.Mean | src/app.py:86-88 | no contract of its own (sum divided by count); its bounds and order-independence are in `Stats.MeanBounds`, `Stats.MeanBetweenMinMax` and `Stats.MeanPermutation` |
| Stats.Min | src/app.py:86-88 | the minimum is an element and bounds every element from below |
| Stats.Max | src/app.py:86-88 | the maximum is an element and bounds every element from above |
| Stats.CountAbove | src/app.py:89 | the breach count never exceeds the number of values |
| Stats.CountAboveIsIndexCount | src/app.py:89 | `(latencies > threshold).sum()` equals the number of positions whose value is strictly above the threshold |
| Stats.CountAboveAppend | src/app.py:89 | the count over a concatenation is the sum of the counts |
| Stats.CountAboveSort | src/app.py:89 | sorting does not change the count |
| Stats.CountAbovePermutation | src/app.py:89 | the count depends only on the multiset of values |
| Stats.SumAppend | src/app.py:86 | the sum over a concatenation is the sum of the sums |
| Stats.SumSort | src/app.py:86 | sorting does not change the sum |
| Stats.SumPermutation | src/app.py:86 | the sum depends only on the multiset of values |
| Stats.SumBounds | src/app.py:86 | values in [lo, hi] give a sum between n * lo and n * hi |
| Stats.MeanBounds | src/app.py:86 | a mean of values in [lo, hi] lies in [lo, hi] |
| Stats.MeanBetweenMinMax | src/app.py:86 | the mean lies between the smallest and the largest value |
| Stats.MeanPermutation | src/app.py:86 | the mean depends only on the multiset of values |
| Stats.Insert | src/app.py:87 | inserting into a sorted sequence keeps it sorted and adds exactly one copy of the value |
| Stats.Sort | src/app.py:87 | the ascending order numpy's linear method indexes into: a sorted permutation of the values |
| Stats.SortedUnique | src/app.py:87 | two sorted sequences with the same multiset are equal |
| Stats.SortPermutation | src/app.py:87 | the sorted column depends only on the multiset of values |
| Stats.SortAppendGreatest | src/app.py:87 | a value no smaller than all others sorts last |
| Stats.SortLastIsGreatest | src/app.py:87 | the last sorted value is the value that bounds all others from above |
| Stats.SortTopTwo | src/app.py:87 | appending a value no smaller than the greatest value b makes b and it the two last sorted values |
| Stats.Rank95 | src/app.py:87 | the fractional rank `0.95 * (n - 1)` lies in [0, n - 1] |
| Stats.Lower95 | src/app.py:87 | the lower neighbour index is the floor of the rank and is a valid index |
| Stats.Upper95 | src/app.py:87 | the upper neighbour index is the ceiling of the rank: equal to the floor or one above it, and a valid index |
| Stats.Percentile95 | src/app.py:87 | no contract of its own (sort, rank `0.95 * (n - 1)`, interpolate between floor and ceiling); its properties are in `Stats.Percentile95Interpolates`, `Stats.Percentile95Bounds` and `Stats.Percentile95Permutation` |
| Stats.Lerp | src/app.py:87 | no contract of its own (`a + g * (b - a)`); `Stats.LerpBetween` bounds it |
| Stats.LerpBetween | src/app.py:87 | interpolation with a weight in [0, 1] stays between its end points |
| Stats.Percentile95Interpolates | src/app.py:87 | the percentile lies between the sorted values at the floor and the ceiling of the rank |
| Stats.Percentile95Within | src/app.py:87 | values in [lo, hi] give a percentile in [lo, hi] |
| Stats.Percentile95Bounds | src/app.py:87 | the percentile lies between the smallest and the largest value |
| Stats.Percentile95Permutation | src/app.py:87 | the percentile depends only on the multiset of values |
| Stats.RoundHalfEven | src/app.py:92-94 | rounding to an integer moves the value by at most one half |
| Stats.Round2 | src/app.py:92-94 | `round(x, 2)` moves the value by at most 0.005 |
| Stats.Round2Idempotent | src/app.py:92-94 | rounding an already rounded value changes nothing |
| Metrics.Column | src/app.py:82-83 | a column has one value per record, in record order |
| Metrics.Latencies | src/app.py:82 | the `latency_ms` column: one latency per record, in record order |
| Metrics.Uptimes | src/app.py:83 | the `uptime_pct` column: one uptime per record, in record order |
| Metrics.ColumnAppend | src/app.py:82-83 | the column of a concatenation is the concatenation of the columns |
| Metrics.ColumnPermutation | src/app.py:82-83 | reordering the records reorders the column and keeps its multiset |
| Metrics.CalculateMetrics | src/app.py:72-96 | an empty selection gives all zeros, and the breach count never exceeds the number of records |
| Metrics.CalculateMetricsPermutation | src/app.py:72-96 | the summary depends only on which records are selected, not on their order |
| Metrics.BreachesCount | src/app.py:89 | `breaches` is the number of records whose latency is strictly above the threshold |
| Metrics.LatencyAtThresholdIsNoBreach | src/app.py:89 | adding a reading whose latency equals the threshold leaves `breaches` unchanged |
| Metrics.AverageLatencyBounds | src/app.py:86 | `avg_latency` is within 0.005 of the mean latency, which lies between the smallest and the largest latency |
| Metrics.AverageUptimeBounds | src/app.py:88 | `avg_uptime` is within 0.005 of the mean uptime, which lies between the smallest and the largest uptime |
| Metrics.AverageUptimeIsPercentage | src/app.py:88 | uptimes in [0, 100] give a mean uptime in [0, 100] |
| Metrics.Percentile95LatencyBounds | src/app.py:87 | `p95_latency` is within 0.005 of the percentile, which lies between the smallest and the largest latency |
| Handler.ExpectedResponse | src/app.py:104-115 | no contract of its own (the reference response: one entry per lower-cased requested region, keys in `KeyOrder`); its properties are in `Handler.ResponseKeys` and `Handler.ResponseValue` |
| Handler.KeyOrder | src/app.py:104-115 | the dict's key order lists each lower-cased requested region exactly once, and nothing else |
| Handler.KeyOrderPrefix | src/app.py:113 | later regions never move earlier keys: the key order of a prefix of the request is a prefix of the key order of the request |
| Handler.GetTelemetryMetrics | src/app.py:100-115 | the loop builds exactly the reference response: one entry per lower-cased requested region holding the summary of that region's records, with the keys in first-stored order |
| Handler.ExpectedResponseStep | src/app.py:107-113 | handling one more region adds or overwrites exactly that region's entry |
| Handler.RequestedKeysSize | src/app.py:113 | there are no more keys than requested regions |
| Handler.ResponseKeys | src/app.py:104-115 | the response keys are exactly the lower-cased requested regions, all lower case, at most one per request entry; an empty request gives an empty mapping |
| Handler.ResponseValue | src/app.py:107-113 | any requested region, in any case, finds under its lower-cased name the summary of its records, so case variants and repeats share one entry |
| Handler.SingleRegionResponse | src/app.py:104-115 | a one-region request gives a mapping with that region's entry alone, listed alone |
| Handler.SingleKeyOrder | src/app.py:113 | a one-region request lists the lower-cased region alone |
| Handler.CaseVariantsResponse | src/app.py:107-113 | two case variants of one region give the single entry of that region, as if it had been asked for once |
| Handler.CaseVariantsKeyOrder | src/app.py:113 | two case variants of one region list its key once |
| Handler.UnknownRegionGivesZeros | src/app.py:74-80 | a region without records gets the all-zero summary |
| Scenarios.NoMarsReadings | src/app.py:109 | no embedded reading belongs to "mars" |
| Scenarios.MarsScenario | src/app.py:104-115 | a request for "mars" with threshold 100 answers `{"mars": zeros}` |
| Scenarios.DuplicateRegionScenario | src/app.py:107-113 | a request for "amer" and "AMER" answers with the single key "amer", listed once |
| Scenarios.ApacRecords | src/app.py:109 | "apac" selects exactly the twelve "apac" readings, in dataset order |
| Scenarios.ApacColumns | src/app.py:82-83 | the "apac" latency and uptime columns hold the embedded values |
| Scenarios.ApacBreachCount | src/app.py:89 | eight "apac" latencies are strictly above 200 |
| Scenarios.ApacLatencyMean | src/app.py:86 | the rounded mean "apac" latency is 199.60 |
| Scenarios.ApacSortedTop | src/app.py:87 | sorted, the twelve "apac" latencies end with 230.57 and 240.39 |
| Scenarios.Rank95OfTwelve | src/app.py:87 | for twelve values the rank is 10.45, between positions 10 and 11 |
| Scenarios.ApacLatencyP95 | src/app.py:87-93 | the rounded 95th-percentile "apac" latency is 234.99 |
| Scenarios.ApacUptimeMean | src/app.py:88 | the rounded mean "apac" uptime is 98.24 |
| Scenarios.ApacScenario | src/app.py:72-96 | for "apac" with threshold 200: `breaches` is 8, `avg_latency` is 199.60, `p95_latency` is 234.99 and `avg_uptime` is 98.24 |

## Left out

- HTTP routing, the CORS middleware, request validation by pydantic, JSON parsing and the construction of the pandas DataFrame are not modelled. The dataset is given directly as a constant sequence of records.
- The `GET /` health-check endpoint is not modelled. It returns a constant message and has no logic.
- Floating point is not modelled. Latencies, uptimes, means and the percentile are exact reals. `round(x, 2)` is rounding of the exact value `x * 100` to the nearest integer, ties to even, divided by 100. The binary representation that can make Python round a decimal tie the "wrong" way is not captured.
- Ascii.Lower: lower-cases only ASCII letters; Python's full Unicode `str.lower()` is not modelled.
- Metrics.CalculateMetrics: the integer threshold is compared as an exact real. pandas' integer-to-float comparison is exact for thresholds of realistic size.
- The `service` and `timestamp` fields are part of `Record` but no operation reads them, which matches the source.
- Handler.GetTelemetryMetrics: the key order is modelled as a sequence beside the map; the rendering of the dict as JSON text is not.
- Async execution and concurrency between requests are not modelled. The handler reads only the immutable dataset.
