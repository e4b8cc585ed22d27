/**
 Counting accepted datapoints over any number of batches, and scraping the counts.
 */
module MetricCounts {
  import opened MetricKeys
  import opened Renaming

  datatype ScopeMetrics = ScopeMetrics(attrs: Attrs, metrics: seq<Metric>)

  datatype ResourceMetrics = ResourceMetrics(attrs: Attrs, scopes: seq<ScopeMetrics>)

  type Batch = seq<ResourceMetrics>

  /** Decides whether a grouping counts a datapoint of a metric. */
  type Filter = (Grouping, Metric, Attributes) -> bool

  // ---- The accepted datapoints of a batch, in the order they are met

  const PREFIX: string := "telemetry_stats_"

  predicate IsOwn(m: Metric) {
    PREFIX <= m.name
  }

  function OfPoints(f: Filter, g: Grouping, m: Metric, resource: Attrs, scope: Attrs,
                    points: seq<Attrs>): seq<Observation> {
    if points == [] then []
    else
      var n := |points| - 1;
      var attrs := Attributes(resource, scope, points[n]);
      OfPoints(f, g, m, resource, scope, points[..n]) + (if f(g, m, attrs) then [Observation(g, m, attrs)] else [])
  }

  function OfGroupings(f: Filter, groupings: seq<Grouping>, m: Metric, resource: Attrs,
                       scope: Attrs): seq<Observation> {
    if groupings == [] then []
    else
      var n := |groupings| - 1;
      OfGroupings(f, groupings[..n], m, resource, scope)
      + (if m.kind.Unsupported? then [] else OfPoints(f, groupings[n], m, resource, scope, m.points))
  }

  function OfMetrics(f: Filter, groupings: seq<Grouping>, metrics: seq<Metric>, resource: Attrs,
                     scope: Attrs): seq<Observation> {
    if metrics == [] then []
    else
      var n := |metrics| - 1;
      OfMetrics(f, groupings, metrics[..n], resource, scope)
      + (if IsOwn(metrics[n]) then [] else OfGroupings(f, groupings, metrics[n], resource, scope))
  }

  function OfScopes(f: Filter, groupings: seq<Grouping>, scopes: seq<ScopeMetrics>, resource: Attrs): seq<Observation> {
    if scopes == [] then []
    else
      var n := |scopes| - 1;
      OfScopes(f, groupings, scopes[..n], resource)
        + OfMetrics(f, groupings, scopes[n].metrics, resource, scopes[n].attrs)
  }

  function OfBatch(f: Filter, groupings: seq<Grouping>, batch: Batch): seq<Observation> {
    if batch == [] then []
    else
      var n := |batch| - 1;
      OfBatch(f, groupings, batch[..n]) + OfScopes(f, groupings, batch[n].scopes, batch[n].attrs)
  }

  // ---- One more of each

  lemma PointsStep(f: Filter, g: Grouping, m: Metric, resource: Attrs, scope: Attrs, points: seq<Attrs>, i: nat)
    requires i < |points|
    ensures var attrs := Attributes(resource, scope, points[i]);
            OfPoints(f, g, m, resource, scope, points[..i + 1])
            == OfPoints(f, g, m, resource, scope, points[..i])
              + (if f(g, m, attrs) then [Observation(g, m, attrs)] else [])
  {
    assert points[..i + 1][..i] == points[..i];
  }

  lemma GroupingsStep(f: Filter, groupings: seq<Grouping>, m: Metric, resource: Attrs, scope: Attrs, i: nat)
    requires i < |groupings|
    ensures OfGroupings(f, groupings[..i + 1], m, resource, scope)
            == OfGroupings(f, groupings[..i], m, resource, scope)
               + (if m.kind.Unsupported? then [] else OfPoints(f, groupings[i], m, resource, scope, m.points))
  {
    assert groupings[..i + 1][..i] == groupings[..i];
  }

  lemma MetricsStep(f: Filter, groupings: seq<Grouping>, metrics: seq<Metric>, resource: Attrs, scope: Attrs, i: nat)
    requires i < |metrics|
    ensures OfMetrics(f, groupings, metrics[..i + 1], resource, scope)
            == OfMetrics(f, groupings, metrics[..i], resource, scope)
               + (if IsOwn(metrics[i]) then [] else OfGroupings(f, groupings, metrics[i], resource, scope))
  {
    assert metrics[..i + 1][..i] == metrics[..i];
  }

  lemma ScopesStep(f: Filter, groupings: seq<Grouping>, scopes: seq<ScopeMetrics>, resource: Attrs, i: nat)
    requires i < |scopes|
    ensures OfScopes(f, groupings, scopes[..i + 1], resource)
            == OfScopes(f, groupings, scopes[..i], resource)
              + OfMetrics(f, groupings, scopes[i].metrics, resource, scopes[i].attrs)
  {
    assert scopes[..i + 1][..i] == scopes[..i];
  }

  lemma BatchStep(f: Filter, groupings: seq<Grouping>, batch: Batch, i: nat)
    requires i < |batch|
    ensures OfBatch(f, groupings, batch[..i + 1])
            == OfBatch(f, groupings, batch[..i]) + OfScopes(f, groupings, batch[i].scopes, batch[i].attrs)
  {
    assert batch[..i + 1][..i] == batch[..i];
  }

  lemma Regroup(a: seq<Observation>, b: seq<Observation>, c: seq<Observation>)
    ensures (a + b) + c == a + (b + c)
  {
  }

  // ---- Counts

  function Keys(seen: seq<Observation>): seq<string> {
    seq(|seen|, i requires 0 <= i < |seen| => Key(seen[i]))
  }

  function LabelSets(seen: seq<Observation>): seq<Labels> {
    seq(|seen|, i requires 0 <= i < |seen| => LabelsOf(seen[i]))
  }

  /** The counts are the numbers of occurrences of each key. */
  ghost predicate Tallies(counts: map<string, nat>, keys: seq<string>) {
    && (forall k | k in counts :: counts[k] == multiset(keys)[k] > 0)
    && (forall k | k in keys :: k in counts)
  }

  lemma TallyMore(counts: map<string, nat>, keys: seq<string>, key: string)
    requires Tallies(counts, keys)
    ensures Tallies(counts[key := (if key in counts then counts[key] else 0) + 1], keys + [key])
  {
    assert key !in counts ==> key !in keys;
  }

  lemma KeysMore(seen: seq<Observation>, o: Observation)
    ensures Keys(seen + [o]) == Keys(seen) + [Key(o)]
  {
  }

  datatype Datapoint = Datapoint(labels: Labels, value: nat)

  /** `order` has the elements of `s`, each once. */
  ghost predicate Lists(order: seq<string>, s: set<string>) {
    && (forall k :: k in order <==> k in s)
    && (forall i, j | 0 <= i < j < |order| :: order[i] != order[j])
  }

  /** The datapoints of the keys, in that order, with labels moved aside for the configured ones. */
  function Scraped(counts: map<string, nat>, keys: seq<string>, configured: seq<Label>): (r: seq<Datapoint>)
    requires forall k | k in keys :: k in counts
    ensures |r| == |keys| && forall i | 0 <= i < |keys| ::
              r[i] == Datapoint(Renamed(Decode(keys[i]), configured), counts[keys[i]])
  {
    seq(|keys|, i requires 0 <= i < |keys| => Datapoint(Renamed(Decode(keys[i]), configured), counts[keys[i]]))
  }

  lemma ListsMore(order: seq<string>, s: set<string>, key: string)
    requires Lists(order, s) && key !in s
    ensures Lists(order + [key], s + {key})
  {
  }

  lemma ScrapedMore(counts: map<string, nat>, keys: seq<string>, key: string, configured: seq<Label>)
    requires (forall k | k in keys :: k in counts) && key in counts
    ensures Scraped(counts, keys + [key], configured)
         == Scraped(counts, keys, configured) + [Datapoint(Renamed(Decode(key), configured), counts[key])]
  {
  }

  /** One datapoint for every key; keys come in any order. */
  method Scrape(counts: map<string, nat>, configured: seq<Label>)
    returns (datapoints: seq<Datapoint>, ghost order: seq<string>)
    ensures Lists(order, counts.Keys) && datapoints == Scraped(counts, order, configured) && |datapoints| == |counts|
  {
    datapoints, order := [], [];
    var left := counts.Keys;
    while left != {}
      invariant left <= counts.Keys && Lists(order, counts.Keys - left)
      invariant datapoints == Scraped(counts, order, configured)
      invariant |datapoints| + |left| == |counts|
      decreases |left|
    {
      var key :| key in left;
      var labels := DecodeKey(key);
      labels := RenameLabels(labels, configured);
      ListsMore(order, counts.Keys - left, key);
      ScrapedMore(counts, order, key, configured);
      datapoints := datapoints + [Datapoint(labels, counts[key])];
      order := order + [key];
      assert counts.Keys - (left - {key}) == counts.Keys - left + {key};
      left := left - {key};
    }
    assert counts.Keys - left == counts.Keys;
  }

  class Processor {
    const groupings: seq<Grouping>
    const accepts: Filter
    var metricCounts: map<string, nat>
    ghost var seen: seq<Observation>

    ghost predicate Valid()
      reads this
    {
      Tallies(metricCounts, Keys(seen))
    }

    constructor (groupings: seq<Grouping>, accepts: Filter)
      ensures Valid() && seen == [] && this.groupings == groupings && this.accepts == accepts
    {
      this.groupings, this.accepts := groupings, accepts;
      metricCounts, seen := map[], [];
    }

    method ProcessDatapoint(g: Grouping, m: Metric, attrs: Attributes)
      requires Valid()
      modifies this
      ensures Valid() && seen == old(seen) + (if accepts(g, m, attrs) then [Observation(g, m, attrs)] else [])
    {
      if !accepts(g, m, attrs) {
        return;
      }
      var o := Observation(g, m, attrs);
      var key := GenerateKey(o);
      TallyMore(metricCounts, Keys(seen), key);
      KeysMore(seen, o);
      metricCounts := metricCounts[key := (if key in metricCounts then metricCounts[key] else 0) + 1];
      seen := seen + [o];
    }

    method ProcessMetricGrouping(g: Grouping, m: Metric, resource: Attrs, scope: Attrs)
      requires Valid()
      modifies this
      ensures Valid()
      ensures seen == old(seen) + (if m.kind.Unsupported? then []
                                   else OfPoints(accepts, g, m, resource, scope, m.points))
    {
      if m.kind.Unsupported? {
        return;
      }
      ghost var done: seq<Observation> := [];
      for i := 0 to |m.points|
        invariant Valid() && seen == old(seen) + done && done == OfPoints(accepts, g, m, resource, scope, m.points[..i])
      {
        var attrs := Attributes(resource, scope, m.points[i]);
        ProcessDatapoint(g, m, attrs);
        PointsStep(accepts, g, m, resource, scope, m.points, i);
        Regroup(old(seen), done, if accepts(g, m, attrs) then [Observation(g, m, attrs)] else []);
        done := OfPoints(accepts, g, m, resource, scope, m.points[..i + 1]);
      }
      assert m.points[..|m.points|] == m.points;
    }

    method ProcessMetric(m: Metric, resource: Attrs, scope: Attrs)
      requires Valid()
      modifies this
      ensures Valid()
      ensures seen == old(seen) + (if IsOwn(m) then [] else OfGroupings(accepts, groupings, m, resource, scope))
    {
      if IsOwn(m) {
        return;
      }
      ghost var done: seq<Observation> := [];
      for i := 0 to |groupings|
        invariant Valid() && seen == old(seen) + done
        invariant done == OfGroupings(accepts, groupings[..i], m, resource, scope)
      {
        ProcessMetricGrouping(groupings[i], m, resource, scope);
        GroupingsStep(accepts, groupings, m, resource, scope, i);
        Regroup(old(seen), done, if m.kind.Unsupported? then []
                else OfPoints(accepts, groupings[i], m, resource, scope, m.points));
        done := OfGroupings(accepts, groupings[..i + 1], m, resource, scope);
      }
      assert groupings[..|groupings|] == groupings;
    }

    method ProcessScope(sm: ScopeMetrics, resource: Attrs)
      requires Valid()
      modifies this
      ensures Valid() && seen == old(seen) + OfMetrics(accepts, groupings, sm.metrics, resource, sm.attrs)
    {
      ghost var done: seq<Observation> := [];
      for k := 0 to |sm.metrics|
        invariant Valid() && seen == old(seen) + done
        invariant done == OfMetrics(accepts, groupings, sm.metrics[..k], resource, sm.attrs)
      {
        ProcessMetric(sm.metrics[k], resource, sm.attrs);
        MetricsStep(accepts, groupings, sm.metrics, resource, sm.attrs, k);
        Regroup(old(seen), done, if IsOwn(sm.metrics[k]) then []
                else OfGroupings(accepts, groupings, sm.metrics[k], resource, sm.attrs));
        done := OfMetrics(accepts, groupings, sm.metrics[..k + 1], resource, sm.attrs);
      }
      assert sm.metrics[..|sm.metrics|] == sm.metrics;
    }

    method ProcessResource(rm: ResourceMetrics)
      requires Valid()
      modifies this
      ensures Valid() && seen == old(seen) + OfScopes(accepts, groupings, rm.scopes, rm.attrs)
    {
      ghost var done: seq<Observation> := [];
      for j := 0 to |rm.scopes|
        invariant Valid() && seen == old(seen) + done && done == OfScopes(accepts, groupings, rm.scopes[..j], rm.attrs)
      {
        ProcessScope(rm.scopes[j], rm.attrs);
        ScopesStep(accepts, groupings, rm.scopes, rm.attrs, j);
        Regroup(old(seen), done, OfMetrics(accepts, groupings, rm.scopes[j].metrics, rm.attrs, rm.scopes[j].attrs));
        done := OfScopes(accepts, groupings, rm.scopes[..j + 1], rm.attrs);
      }
      assert rm.scopes[..|rm.scopes|] == rm.scopes;
    }

    /** Counts every accepted datapoint of the batch, and nothing else. */
    method ProcessMetrics(batch: Batch)
      requires Valid()
      modifies this
      ensures Valid() && seen == old(seen) + OfBatch(accepts, groupings, batch)
    {
      ghost var done: seq<Observation> := [];
      for i := 0 to |batch|
        invariant Valid() && seen == old(seen) + done && done == OfBatch(accepts, groupings, batch[..i])
      {
        ProcessResource(batch[i]);
        BatchStep(accepts, groupings, batch, i);
        Regroup(old(seen), done, OfScopes(accepts, groupings, batch[i].scopes, batch[i].attrs));
        done := OfBatch(accepts, groupings, batch[..i + 1]);
      }
      assert batch[..|batch|] == batch;
    }

    method ScrapeMetricStats(configured: seq<Label>) returns (datapoints: seq<Datapoint>, ghost order: seq<string>)
      requires Valid()
      ensures Lists(order, metricCounts.Keys) && datapoints == Scraped(metricCounts, order, configured)
      ensures |datapoints| == |metricCounts|
    {
      datapoints, order := Scrape(metricCounts, configured);
    }
  }

  // ---- What a scrape reports

  /** Datapoints whose keys can be decoded, of groupings of one config. */
  ghost predicate AllEncodable(groupings: seq<Grouping>, seen: seq<Observation>) {
    forall o | o in seen :: o.group in groupings && PlainLabels(o.group) && Encodable(o)
  }

  lemma {:induction false} SameCount(a: seq<string>, b: seq<Labels>, k: string, l: Labels)
    requires |a| == |b| && forall i | 0 <= i < |a| :: a[i] == k <==> b[i] == l
    ensures multiset(a)[k] == multiset(b)[l]
  {
    if a != [] {
      var n := |a| - 1;
      SameCount(a[..n], b[..n], k, l);
      assert a == a[..n] + [a[n]] && b == b[..n] + [b[n]];
    }
  }

  /** The occurrences of a key are those of the labels it stands for. */
  lemma KeyCountIsLabelCount(groupings: seq<Grouping>, seen: seq<Observation>, x: Observation)
    requires DistinctNames(groupings) && AllEncodable(groupings, seen) && x in seen
    ensures multiset(Keys(seen))[Key(x)] == multiset(LabelSets(seen))[LabelsOf(x)]
  {
    var keys, sets := Keys(seen), LabelSets(seen);
    forall i | 0 <= i < |seen|
      ensures keys[i] == Key(x) <==> sets[i] == LabelsOf(x)
    {
      KeyIffLabels(groupings, seen[i], x);
    }
    SameCount(keys, sets, Key(x), LabelsOf(x));
  }

  /** The key that was generated for some datapoint. */
  lemma KeyHasDatapoint(seen: seq<Observation>, key: string) returns (o: Observation)
    requires key in Keys(seen)
    ensures o in seen && Key(o) == key
  {
    var i :| 0 <= i < |seen| && Keys(seen)[i] == key;
    o := seen[i];
  }

  lemma ScrapedValue(groupings: seq<Grouping>, seen: seq<Observation>, counts: map<string, nat>, key: string)
    requires DistinctNames(groupings) && AllEncodable(groupings, seen)
    requires Tallies(counts, Keys(seen)) && key in counts
    ensures Decode(key) in LabelSets(seen) && counts[key] == multiset(LabelSets(seen))[Decode(key)]
  {
    var o := KeyHasDatapoint(seen, key);
    RoundTrip(o);
    KeyCountIsLabelCount(groupings, seen, o);
  }

  lemma SameDecoded(groupings: seq<Grouping>, seen: seq<Observation>, a: string, b: string)
    requires DistinctNames(groupings) && AllEncodable(groupings, seen) && a in Keys(seen) && b in Keys(seen)
    ensures Decode(a) == Decode(b) ==> a == b
  {
    var x := KeyHasDatapoint(seen, a);
    var y := KeyHasDatapoint(seen, b);
    RoundTrip(x);
    RoundTrip(y);
    KeyIffLabels(groupings, x, y);
  }

  /**
   Over everything seen so far, a scrape reports each set of labels that occurred once, with
   the number of accepted datapoints that have exactly those labels; the labels themselves
   are then moved aside for the configured ones.
   */
  lemma ScrapeIsExact(groupings: seq<Grouping>, seen: seq<Observation>, counts: map<string, nat>, order: seq<string>,
                      configured: seq<Label>)
    requires DistinctNames(groupings) && AllEncodable(groupings, seen)
    requires Tallies(counts, Keys(seen)) && Lists(order, counts.Keys)
    ensures forall i | 0 <= i < |order| ::
              var l := Decode(order[i]);
              l in LabelSets(seen) && Scraped(counts, order, configured)[i]
                == Datapoint(Renamed(l, configured), multiset(LabelSets(seen))[l])
    ensures forall l | l in LabelSets(seen) :: exists i | 0 <= i < |order| :: Decode(order[i]) == l
    ensures forall i, j | 0 <= i < j < |order| :: Decode(order[i]) != Decode(order[j])
  {
    forall i | 0 <= i < |order|
      ensures Decode(order[i]) in LabelSets(seen) && counts[order[i]] == multiset(LabelSets(seen))[Decode(order[i])]
    {
      ScrapedValue(groupings, seen, counts, order[i]);
    }
    forall l | l in LabelSets(seen)
      ensures exists i | 0 <= i < |order| :: Decode(order[i]) == l
    {
      LabelsAreScraped(groupings, seen, counts, order, l);
    }
    forall i, j | 0 <= i < j < |order|
      ensures Decode(order[i]) != Decode(order[j])
    {
      SameDecoded(groupings, seen, order[i], order[j]);
    }
  }

  /**
   If for every grouping no two label names end up under one name, the labels that are reported
   differ from datapoint to datapoint, so that each count is that of its reported labels.
   */
  lemma ReportedLabelsDiffer(groupings: seq<Grouping>, seen: seq<Observation>, counts: map<string, nat>,
                             order: seq<string>, configured: seq<Label>, i: nat, j: nat)
    requires DistinctNames(groupings) && AllEncodable(groupings, seen)
    requires Tallies(counts, Keys(seen)) && Lists(order, counts.Keys) && i < j < |order|
    requires forall g | g in groupings :: LandApart(configured, NamesOf(g))
    ensures Scraped(counts, order, configured)[i].labels != Scraped(counts, order, configured)[j].labels
  {
    assert order[i] in counts && order[j] in counts;
    var x := KeyHasDatapoint(seen, order[i]);
    var y := KeyHasDatapoint(seen, order[j]);
    RoundTrip(x);
    RoundTrip(y);
    SameDecoded(groupings, seen, order[i], order[j]);
    if x.group == y.group {
      RenamingKeepsApartIff(x.group, configured);
    } else {
      GroupingsStayApart(x, y, configured);
    }
  }

  lemma LabelsAreScraped(groupings: seq<Grouping>, seen: seq<Observation>, counts: map<string, nat>,
                         order: seq<string>, l: Labels)
    requires AllEncodable(groupings, seen) && Tallies(counts, Keys(seen)) && Lists(order, counts.Keys)
    requires l in LabelSets(seen)
    ensures exists i | 0 <= i < |order| :: Decode(order[i]) == l
  {
    var i :| 0 <= i < |seen| && LabelSets(seen)[i] == l;
    var o := seen[i];
    assert o in seen && Keys(seen)[i] in Keys(seen);
    RoundTrip(o);
    var j :| 0 <= j < |order| && order[j] == Key(o);
  }
}
