/**
 The counts of the datapoints the processors themselves generate, shared by all of them under
 a lock, and the report of those counts, which counts its own datapoints too.
 */
module SelfReport {
  import opened Wrappers
  import opened Text
  import opened MetricKeys
  import opened Renaming
  import opened MetricCounts

  const DATAPOINTS: string := PREFIX + "datapoints_total"

  /** A processor has generated `n` datapoints of that name, or one has reported the counts. */
  datatype Event = Generated(name: string, n: nat) | Reported

  // ---- What has happened, told from the events alone

  /** The names datapoints were generated under; a report generates datapoints too. */
  function Names(events: seq<Event>): set<string> {
    if events == [] then {}
    else
      var n := |events| - 1;
      Names(events[..n]) + {if events[n].Generated? then events[n].name else DATAPOINTS}
  }

  /** A report has one datapoint, named DATAPOINTS, for every name so far, its own included. */
  function ReportSize(before: seq<Event>): nat {
    |Names(before) + {DATAPOINTS}|
  }

  /** How many datapoints of that name have been generated. */
  function Total(events: seq<Event>, name: string): nat {
    if events == [] then 0
    else
      var n := |events| - 1;
      Total(events[..n], name) +
      match events[n]
      case Generated(other, k) => if other == name then k else 0
      case Reported => if name == DATAPOINTS then ReportSize(events[..n]) else 0
  }

  lemma NamesMore(events: seq<Event>, e: Event)
    ensures Names(events + [e]) == Names(events) + {if e.Generated? then e.name else DATAPOINTS}
  {
    assert (events + [e])[..|events|] == events;
  }

  lemma TotalMore(events: seq<Event>, e: Event, name: string)
    ensures Total(events + [e], name) == Total(events, name) +
                                         match e
                                         case Generated(other, k) => if other == name then k else 0
                                         case Reported => if name == DATAPOINTS then ReportSize(events) else 0
  {
    assert (events + [e])[..|events|] == events;
  }

  lemma {:induction false} UnnamedIsZero(events: seq<Event>, name: string)
    requires name !in Names(events)
    ensures Total(events, name) == 0
  {
    if events != [] {
      UnnamedIsZero(events[..|events| - 1], name);
    }
  }

  // ---- The shared counts

  /** The counts are the totals of the events. */
  ghost predicate Agrees(counts: map<string, nat>, events: seq<Event>) {
    counts.Keys == Names(events) && forall name | name in counts :: counts[name] == Total(events, name)
  }

  function CountOf(counts: map<string, nat>, name: string): nat {
    if name in counts then counts[name] else 0
  }

  lemma CountIsTotal(counts: map<string, nat>, events: seq<Event>, name: string)
    requires Agrees(counts, events)
    ensures CountOf(counts, name) == Total(events, name)
  {
    if name !in counts {
      UnnamedIsZero(events, name);
    }
  }

  lemma AgreesAfterUpdate(counts: map<string, nat>, events: seq<Event>, name: string, n: nat)
    requires Agrees(counts, events)
    ensures Agrees(counts[name := CountOf(counts, name) + n], events + [Generated(name, n)])
  {
    var after, events' := counts[name := CountOf(counts, name) + n], events + [Generated(name, n)];
    NamesMore(events, Generated(name, n));
    assert after.Keys == counts.Keys + {name};
    CountIsTotal(counts, events, name);
    forall other | other in after
      ensures after[other] == Total(events', other)
    {
      TotalMore(events, Generated(name, n), other);
    }
  }

  /** The counts with that name among them, and as many more counted for it as there are names. */
  function Bumped(counts: map<string, nat>, name: string): (r: map<string, nat>)
    ensures r.Keys == counts.Keys + {name} && r[name] == CountOf(counts, name) + |counts.Keys + {name}|
    ensures forall other | other in counts && other != name :: r[other] == counts[other]
  {
    var own := if name in counts then counts else counts[name := 0];
    assert |own| == |own.Keys| && own.Keys == counts.Keys + {name};
    own[name := own[name] + |own|]
  }

  lemma AgreesAfterReport(counts: map<string, nat>, events: seq<Event>)
    requires Agrees(counts, events)
    ensures Agrees(Bumped(counts, DATAPOINTS), events + [Reported])
  {
    var after := Bumped(counts, DATAPOINTS);
    NamesMore(events, Reported);
    CountIsTotal(counts, events, DATAPOINTS);
    forall other | other in after
      ensures after[other] == Total(events + [Reported], other)
    {
      TotalMore(events, Reported, other);
    }
  }

  // ---- The labels of a report's datapoints

  function PutConfigured(labels: Labels, configured: seq<Label>): Labels {
    if configured == [] then labels
    else
      var n := |configured| - 1;
      PutConfigured(labels, configured[..n])["metric_" + configured[n].name := configured[n].value]
  }

  function ReportLabels(name: string, configured: seq<Label>): Labels {
    PutConfigured(map["source" := SOURCE, "metric_name" := name, "metric_type" := "Counter"], configured)
  }

  /** The value of the last configured label called "name", which is written over the metric's name. */
  function NameLabel(configured: seq<Label>): Option<string> {
    if configured == [] then None
    else
      var n := |configured| - 1;
      if configured[n].name == "name" then Some(configured[n].value) else NameLabel(configured[..n])
  }

  lemma {:induction false} PutConfiguredName(labels: Labels, configured: seq<Label>)
    requires "metric_name" in labels
    ensures var r := PutConfigured(labels, configured);
            "metric_name" in r && r["metric_name"] == if NameLabel(configured).Some? then NameLabel(configured).value
              else labels["metric_name"]
  {
    if configured != [] {
      var n := |configured| - 1;
      PutConfiguredName(labels, configured[..n]);
      SamePrefix("metric_", configured[n].name, "name");
      assert "metric_" + "name" == "metric_name";
    }
  }

  /** The `i`-th configured label is the last one that is written under the name `k`. */
  predicate WrittenLast(configured: seq<Label>, i: nat, k: string) {
    && i < |configured| && k == "metric_" + configured[i].name
    && forall j | i < j < |configured| :: k != "metric_" + configured[j].name
  }

  predicate NotWritten(configured: seq<Label>, k: string) {
    forall c | c in configured :: k != "metric_" + c.name
  }

  lemma {:induction false} PutNotWritten(labels: Labels, configured: seq<Label>, k: string)
    requires NotWritten(configured, k)
    ensures var r := PutConfigured(labels, configured);
            (k in r <==> k in labels) && (k in r ==> r[k] == labels[k])
  {
    if configured != [] {
      var n := |configured| - 1;
      PutNotWritten(labels, configured[..n], k);
      assert configured[n] in configured;
    }
  }

  lemma {:induction false} PutWritten(labels: Labels, configured: seq<Label>, i: nat, k: string)
    requires WrittenLast(configured, i, k)
    ensures k in PutConfigured(labels, configured) && PutConfigured(labels, configured)[k] == configured[i].value
  {
    var n := |configured| - 1;
    if i < n {
      PutWritten(labels, configured[..n], i, k);
    }
  }

  /**
   The labels of a reported count: the last configured label that is written under a name, and
   where none is, the source, the metric's name and its type, and nothing else.
   */
  lemma ReportLabelsAre(name: string, configured: seq<Label>, k: string)
    ensures var r := ReportLabels(name, configured);
            && (forall i: nat :: WrittenLast(configured, i, k) ==> k in r && r[k] == configured[i].value)
            && (NotWritten(configured, k) ==>
                  && (k in r <==> k in {"source", "metric_name", "metric_type"})
                  && (k == "source" ==> r[k] == "telemetrystatsprocessor:0.0.1")
                  && (k == "metric_name" ==> r[k] == name) && (k == "metric_type" ==> r[k] == "Counter"))
  {
    var start := map["source" := SOURCE, "metric_name" := name, "metric_type" := "Counter"];
    forall i: nat | WrittenLast(configured, i, k)
      ensures k in ReportLabels(name, configured) && ReportLabels(name, configured)[k] == configured[i].value
    {
      PutWritten(start, configured, i, k);
    }
    if NotWritten(configured, k) {
      PutNotWritten(start, configured, k);
    }
  }

  /** A reported count names its metric exactly when no configured label called "name" says otherwise. */
  lemma ReportNamesMetricIff(name: string, configured: seq<Label>)
    ensures "metric_name" in ReportLabels(name, configured)
    ensures ReportLabels(name, configured)["metric_name"] == name <==> NameLabel(configured) in {None, Some(name)}
  {
    PutConfiguredName(map["source" := SOURCE, "metric_name" := name, "metric_type" := "Counter"], configured);
  }

  method BuildLabels(name: string, configured: seq<Label>) returns (labels: Labels)
    ensures labels == ReportLabels(name, configured)
  {
    labels := map["source" := SOURCE, "metric_name" := name, "metric_type" := "Counter"];
    ghost var start := labels;
    for i := 0 to |configured|
      invariant labels == PutConfigured(start, configured[..i])
    {
      assert configured[..i + 1][..i] == configured[..i];
      labels := labels["metric_" + configured[i].name := configured[i].value];
    }
    assert configured[..|configured|] == configured;
  }

  /** The datapoints are those of the counts, one for each name in that order. */
  ghost predicate Listed(datapoints: seq<Datapoint>, order: seq<string>, counts: map<string, nat>,
                         configured: seq<Label>) {
    && |datapoints| == |order|
    && forall i | 0 <= i < |order| ::
         datapoints[i] == Datapoint(ReportLabels(order[i], configured), CountOf(counts, order[i]))
  }

  lemma ListedMore(datapoints: seq<Datapoint>, order: seq<string>, counts: map<string, nat>, configured: seq<Label>,
                   name: string)
    requires Listed(datapoints, order, counts, configured)
    ensures Listed(datapoints + [Datapoint(ReportLabels(name, configured), CountOf(counts, name))], order + [name],
                   counts, configured)
  {
  }

  /** One datapoint for every count, in any order. */
  method ListCounts(counts: map<string, nat>, configured: seq<Label>)
    returns (datapoints: seq<Datapoint>, ghost order: seq<string>)
    ensures |datapoints| == |order| == |counts.Keys| && Lists(order, counts.Keys)
    ensures forall i | 0 <= i < |order| ::
              datapoints[i] == Datapoint(ReportLabels(order[i], configured), CountOf(counts, order[i]))
  {
    datapoints, order := [], [];
    var left := counts.Keys;
    while left != {}
      invariant left <= counts.Keys && Lists(order, counts.Keys - left)
      invariant |order| == |counts.Keys| - |left| && Listed(datapoints, order, counts, configured)
      decreases |left|
    {
      var name :| name in left;
      var labels := BuildLabels(name, configured);
      ListsMore(order, counts.Keys - left, name);
      ListedMore(datapoints, order, counts, configured, name);
      datapoints := datapoints + [Datapoint(labels, counts[name])];
      order := order + [name];
      assert counts.Keys - (left - {name}) == counts.Keys - left + {name};
      left := left - {name};
    }
    assert counts.Keys - left == counts.Keys;
  }

  class SelfCounts {
    var counts: map<string, nat>
    ghost var events: seq<Event>

    ghost predicate Valid()
      reads this
    {
      Agrees(counts, events)
    }

    constructor ()
      ensures Valid() && events == []
    {
      counts, events := map[], [];
    }

    /** updateTelemetryStatCounts, called by a processor that has generated these datapoints. */
    method Update(datapoints: seq<Datapoint>, name: string)
      requires Valid()
      modifies this
      ensures Valid() && events == old(events) + [Generated(name, |datapoints|)]
    {
      AgreesAfterUpdate(counts, events, name, |datapoints|);
      counts := counts[name := CountOf(counts, name) + |datapoints|];
      events := events + [Generated(name, |datapoints|)];
    }

    /** The locked part of getTelemetryStatCounts: the report's datapoints are counted before they are listed. */
    method CountReport() returns (copied: map<string, nat>)
      requires Valid()
      modifies this
      ensures Valid() && events == old(events) + [Reported] && copied == counts
    {
      AgreesAfterReport(counts, events);
      counts := Bumped(counts, DATAPOINTS);
      events := events + [Reported];
      copied := counts;
    }

    /**
     getTelemetryStatCounts. There is one datapoint for every name, as many as the report is
     counted for, and each shows the total of its name with this report's datapoints included.
     */
    method Report(configured: seq<Label>) returns (datapoints: seq<Datapoint>, ghost order: seq<string>)
      requires Valid()
      modifies this
      ensures Valid() && events == old(events) + [Reported]
      ensures |datapoints| == |order| == ReportSize(old(events)) && Lists(order, Names(events))
      ensures forall i | 0 <= i < |order| ::
                datapoints[i] == Datapoint(ReportLabels(order[i], configured), Total(events, order[i]))
    {
      var copied := CountReport();
      datapoints, order := ListCounts(copied, configured);
      NamesMore(old(events), Reported);
      forall i | 0 <= i < |order|
        ensures CountOf(copied, order[i]) == Total(events, order[i])
      {
        CountIsTotal(copied, events, order[i]);
      }
    }
  }
}
