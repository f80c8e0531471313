/**
 * The `POST /api/latency` handler: for each requested region, in order, it
 * filters the dataset by the lower-cased region, summarises the records and
 * stores the summary under the lower-cased region, then wraps the mapping
 * under "regions". The mapping is a Python dict, so its keys appear in the
 * order in which they were first stored.
 */
module Handler {
  import opened Ascii
  import opened Dataset
  import opened Metrics

  /** The request body: the regions asked for and the latency threshold in milliseconds. */
  datatype MetricsRequest = MetricsRequest(regions: seq<string>, thresholdMs: int)

  /**
   * The response body `{"regions": {...}}`: the entries, and the order in
   * which their keys appear in the body.
   */
  datatype Response = Response(regions: map<string, MetricsResult>, order: seq<string>)

  /** The lower-cased forms of the requested regions. */
  function RequestedKeys(regions: seq<string>): set<string>
  {
    set r | r in regions :: Lower(r)
  }

  /**
   * The lower-cased requested regions in the order a dict first receives
   * them: a key stored again keeps its place, a new key goes last.
   */
  function KeyOrder(regions: seq<string>): (ks: seq<string>)
    ensures forall i, j :: 0 <= i < j < |ks| ==> ks[i] != ks[j]
    ensures forall k :: k in ks <==> k in RequestedKeys(regions)
  {
    if regions == [] then []
    else
      var n := |regions| - 1;
      var prior := KeyOrder(regions[..n]);
      var k := Lower(regions[n]);
      assert RequestedKeys(regions) == RequestedKeys(regions[..n]) + {k} by {
        assert regions == regions[..n] + [regions[n]];
      }
      if k in prior then prior else prior + [k]
  }

  /**
   * The response the handler is meant to give for `req` over `data`: one
   * entry per lower-cased requested region, holding the summary of that
   * region's records.
   */
  function ExpectedResponse(data: seq<Record>, req: MetricsRequest): Response
  {
    Response(
      map k | k in RequestedKeys(req.regions) :: CalculateMetrics(FilterByRegion(data, k), req.thresholdMs),
      KeyOrder(req.regions))
  }

  /**
   * `get_telemetry_metrics`: walks the requested regions in order and
   * (over)writes each region's summary under its lower-cased name.
   */
  method GetTelemetryMetrics(req: MetricsRequest) returns (resp: Response)
    ensures resp == ExpectedResponse(Telemetry, req)
  {
    var results: map<string, MetricsResult> := map[];
    var order: seq<string> := [];
    var threshold := req.thresholdMs;
    for i := 0 to |req.regions|
      invariant results == ExpectedResponse(Telemetry, MetricsRequest(req.regions[..i], threshold)).regions
      invariant order == KeyOrder(req.regions[..i])
    {
      var region := req.regions[i];
      var regionRecords := FilterByRegion(Telemetry, region);
      var metrics := CalculateMetrics(regionRecords, threshold);
      ResponseKeys(Telemetry, MetricsRequest(req.regions[..i], threshold));
      KeyOrderStep(req.regions, i);
      if Lower(region) !in results {
        order := order + [Lower(region)];
      }
      results := results[Lower(region) := metrics];
      ExpectedResponseStep(Telemetry, req.regions, i, threshold);
    }
    assert req.regions[..|req.regions|] == req.regions;
    resp := Response(results, order);
  }

  /** Handling one more region adds or overwrites exactly that region's entry. */
  lemma ExpectedResponseStep(data: seq<Record>, regions: seq<string>, i: nat, threshold: int)
    requires i < |regions|
    ensures ExpectedResponse(data, MetricsRequest(regions[..i + 1], threshold)).regions ==
            ExpectedResponse(data, MetricsRequest(regions[..i], threshold)).regions[
              Lower(regions[i]) := CalculateMetrics(FilterByRegion(data, regions[i]), threshold)]
  {
    var before := ExpectedResponse(data, MetricsRequest(regions[..i], threshold)).regions;
    var after := ExpectedResponse(data, MetricsRequest(regions[..i + 1], threshold)).regions;
    var key := Lower(regions[i]);
    var v := CalculateMetrics(FilterByRegion(data, regions[i]), threshold);
    assert after.Keys == before.Keys + {key} by {
      RequestedKeysStep(regions, i);
    }
    assert key in after && after[key] == v by {
      RequestedKeysStep(regions, i);
      ExpectedEntry(data, MetricsRequest(regions[..i + 1], threshold), key);
      FilterCaseInsensitive(data, regions[i], key);
    }
    forall k | k in before && k != key
      ensures after[k] == before[k]
    {
      ExpectedEntry(data, MetricsRequest(regions[..i + 1], threshold), k);
      ExpectedEntry(data, MetricsRequest(regions[..i], threshold), k);
    }
    MapUpdate(before, after, key, v);
  }

  /** A map that agrees with `before` except for holding `v` under `key` is `before[key := v]`. */
  lemma MapUpdate(before: map<string, MetricsResult>, after: map<string, MetricsResult>, key: string, v: MetricsResult)
    requires after.Keys == before.Keys + {key}
    requires key in after && after[key] == v
    requires forall k :: k in before && k != key ==> after[k] == before[k]
    ensures after == before[key := v]
  {
  }

  /** The entry under a requested key is the summary of that key's records. */
  lemma ExpectedEntry(data: seq<Record>, req: MetricsRequest, k: string)
    requires k in RequestedKeys(req.regions)
    ensures k in ExpectedResponse(data, req).regions
    ensures ExpectedResponse(data, req).regions[k] == CalculateMetrics(FilterByRegion(data, k), req.thresholdMs)
  {
  }

  /** One more requested region adds its lower-cased name to the keys. */
  lemma RequestedKeysStep(regions: seq<string>, i: nat)
    requires i < |regions|
    ensures RequestedKeys(regions[..i + 1]) == RequestedKeys(regions[..i]) + {Lower(regions[i])}
  {
    assert regions[..i + 1] == regions[..i] + [regions[i]];
  }

  /** One more requested region appends its key unless the key is already there. */
  lemma KeyOrderStep(regions: seq<string>, i: nat)
    requires i < |regions|
    ensures KeyOrder(regions[..i + 1]) ==
            if Lower(regions[i]) in RequestedKeys(regions[..i]) then KeyOrder(regions[..i])
            else KeyOrder(regions[..i]) + [Lower(regions[i])]
  {
    assert regions[..i + 1][..i] == regions[..i];
  }

  // ---------------------------------------------------------------------------
  // Lemmas
  // ---------------------------------------------------------------------------

  /** There are no more distinct lower-cased keys than requested regions. */
  lemma {:induction false} RequestedKeysSize(regions: seq<string>)
    ensures |RequestedKeys(regions)| <= |regions|
  {
    if regions != [] {
      var p := regions[..|regions| - 1];
      RequestedKeysSize(p);
      assert regions == p + [regions[|regions| - 1]];
      assert RequestedKeys(regions) == RequestedKeys(p) + {Lower(regions[|regions| - 1])};
    }
  }

  /**
   * Later regions never move the keys of earlier ones: the key order for a
   * request starts with the key order for any prefix of it.
   */
  lemma {:induction false} KeyOrderPrefix(regions: seq<string>, more: seq<string>)
    ensures KeyOrder(regions) <= KeyOrder(regions + more)
  {
    if more != [] {
      var m := |more| - 1;
      var all := regions + more;
      var earlier := KeyOrder(regions + more[..m]);
      KeyOrderPrefix(regions, more[..m]);
      assert all[..|all| - 1] == regions + more[..m];
      assert KeyOrder(all)[..|earlier|] == earlier;
    } else {
      assert regions + more == regions;
    }
  }

  /**
   * The response has exactly one key per lower-cased requested region, every
   * key is lower case, and an empty request gives an empty mapping.
   */
  lemma ResponseKeys(data: seq<Record>, req: MetricsRequest)
    ensures ExpectedResponse(data, req).regions.Keys == RequestedKeys(req.regions)
    ensures forall k :: k in ExpectedResponse(data, req).regions ==> IsLowerCase(k)
    ensures |ExpectedResponse(data, req).regions| <= |req.regions|
    ensures req.regions == [] ==> ExpectedResponse(data, req).regions == map[]
  {
    RequestedKeysSize(req.regions);
  }

  /**
   * Every requested region, whatever its case, finds under its lower-cased
   * name the summary of the records whose region is that lower-cased name;
   * so regions that differ only in case, or repeat, share one entry.
   */
  lemma ResponseValue(data: seq<Record>, req: MetricsRequest, r: string)
    requires r in req.regions
    ensures Lower(r) in ExpectedResponse(data, req).regions
    ensures ExpectedResponse(data, req).regions[Lower(r)] ==
            CalculateMetrics(FilterByRegion(data, r), req.thresholdMs)
  {
    FilterCaseInsensitive(data, r, Lower(r));
  }

  /** A request for one region gives a mapping with that region's entry alone. */
  lemma SingleRegionResponse(data: seq<Record>, r: string, threshold: int)
    ensures ExpectedResponse(data, MetricsRequest([r], threshold)).regions ==
            map[Lower(r) := CalculateMetrics(FilterByRegion(data, r), threshold)]
    ensures ExpectedResponse(data, MetricsRequest([r], threshold)).order == [Lower(r)]
  {
    SingleKeyOrder(r);
    assert RequestedKeys([r]) == {Lower(r)};
    FilterCaseInsensitive(data, r, Lower(r));
  }

  /** A request for one region lists that region's key alone. */
  lemma SingleKeyOrder(r: string)
    ensures KeyOrder([r]) == [Lower(r)]
  {
    assert [r][..0] == [];
  }

  /** Two case variants of one region give a single entry, as if the region had been asked for once. */
  lemma CaseVariantsResponse(data: seq<Record>, r: string, r': string, threshold: int)
    requires Lower(r) == Lower(r')
    ensures ExpectedResponse(data, MetricsRequest([r, r'], threshold)).regions ==
            map[Lower(r) := CalculateMetrics(FilterByRegion(data, r), threshold)]
  {
    var req := MetricsRequest([r, r'], threshold);
    var m := ExpectedResponse(data, req).regions;
    assert m.Keys == {Lower(r)} by {
      assert RequestedKeys([r, r']) == {Lower(r)};
    }
    assert Lower(r) in m && m[Lower(r)] == CalculateMetrics(FilterByRegion(data, r), threshold) by {
      ResponseValue(data, req, r);
    }
    MapUpdate(map[], m, Lower(r), m[Lower(r)]);
  }

  /** Two case variants of one region list its key once. */
  lemma CaseVariantsKeyOrder(r: string, r': string)
    requires Lower(r) == Lower(r')
    ensures KeyOrder([r, r']) == [Lower(r)]
  {
    assert [r, r'][..1] == [r] && [r, r'][..2] == [r, r'];
    KeyOrderStep([r, r'], 1);
    SingleKeyOrder(r);
    assert r in [r];
  }

  /** A region no record belongs to gets the all-zero summary. */
  lemma UnknownRegionGivesZeros(data: seq<Record>, req: MetricsRequest, r: string)
    requires r in req.regions
    requires forall i :: 0 <= i < |data| ==> data[i].region != Lower(r)
    ensures ExpectedResponse(data, req).regions[Lower(r)] == ZeroMetrics
  {
    ResponseValue(data, req, r);
    FilterNoneMatch(data, r);
  }
}
