/**
 The keys under which accepted datapoints are counted, and how a scrape decodes them. A key
 is the grouping's name followed by `name=value` parts, all joined by colons.
 */
module MetricKeys {
  import opened Wrappers

  // ---- Joining and splitting text

  /** The first position of `c`, or the length of `s`. */
  function Find(s: string, c: char): (i: nat)
    ensures i <= |s| && (i < |s| ==> s[i] == c) && forall j | 0 <= j < i :: s[j] != c
  {
    if s == [] || s[0] == c then 0 else 1 + Find(s[1..], c)
  }

  /** strings.Join(parts, ":") */
  function Join(parts: seq<string>): string {
    if parts == [] then "" else if |parts| == 1 then parts[0] else parts[0] + ":" + Join(parts[1..])
  }

  /** strings.Split(s, ":") */
  function Split(s: string): (parts: seq<string>)
    ensures parts != [] && forall p | p in parts :: ':' !in p
    decreases |s|
  {
    var i := Find(s, ':');
    if i == |s| then [s] else [s[..i]] + Split(s[i + 1..])
  }

  lemma FindAt(a: string, c: char, b: string)
    requires c !in a
    ensures Find(a + [c] + b, c) == |a|
  {
    var s := a + [c] + b;
    assert forall j | 0 <= j < |a| :: s[j] == a[j];
    assert s[|a|] == c;
  }

  lemma FindNone(a: string, c: char)
    requires c !in a
    ensures Find(a, c) == |a|
  {
  }

  predicate ColonFree(parts: seq<string>) {
    forall p | p in parts :: ':' !in p
  }

  lemma {:induction false} SplitJoin(parts: seq<string>)
    requires parts != [] && ColonFree(parts)
    ensures Split(Join(parts)) == parts
  {
    var p := parts[0];
    if |parts| == 1 {
      FindNone(p, ':');
    } else {
      var rest := Join(parts[1..]);
      FindAt(p, ':', rest);
      assert p + ":" + rest == p + [':'] + rest;
      assert Join(parts)[..|p|] == p && Join(parts)[|p| + 1..] == rest;
      SplitJoin(parts[1..]);
    }
  }

  // ---- What is counted

  datatype Kind = Gauge | Sum | Histogram | Summary | Unsupported

  datatype Value = Str(text: string) | NotStr

  type Attrs = map<string, Value>

  /** Attributes of the resource, the scope and the datapoint. */
  datatype Attributes = Attributes(resource: Attrs, scope: Attrs, datapoint: Attrs)

  datatype Metric = Metric(name: string, kind: Kind, points: seq<Attrs>)

  datatype Grouping = Grouping(name: string, byName: bool, byType: bool, labels: seq<string>)

  /** An accepted datapoint of a metric, counted for a grouping. */
  datatype Observation = Observation(group: Grouping, metric: Metric, attrs: Attributes)

  /** The innermost attribute of that name, if it is text. */
  function Get(attrs: Attributes, name: string): Option<string> {
    var found :=
      if name in attrs.datapoint then Some(attrs.datapoint[name])
      else if name in attrs.scope then Some(attrs.scope[name])
      else if name in attrs.resource then Some(attrs.resource[name])
      else None;
    if found.Some? && found.value.Str? then Some(found.value.text) else None
  }

  function KindName(kind: Kind): string {
    match kind
    case Gauge => "Gauge"
    case Sum => "Counter"
    case Histogram => "Histogram"
    case Summary => "Summary"
    case Unsupported => "Unknown"
  }

  // ---- Generating a key

  function LabelParts(names: seq<string>, attrs: Attributes): seq<string> {
    if names == [] then []
    else
      var n := |names| - 1;
      var value := Get(attrs, names[n]);
      LabelParts(names[..n], attrs) + (if value.Some? then [names[n] + "=" + value.value] else [])
  }

  function NameParts(o: Observation): seq<string> {
    if o.group.byName then ["__name=" + o.metric.name] else []
  }

  function TypeParts(o: Observation): seq<string> {
    if o.group.byType then ["__type=" + KindName(o.metric.kind)] else []
  }

  function Parts(o: Observation): seq<string> {
    [o.group.name] + NameParts(o) + TypeParts(o) + LabelParts(o.group.labels, o.attrs)
  }

  function Key(o: Observation): string {
    Join(Parts(o))
  }

  /** generateMetricKey */
  method GenerateKey(o: Observation) returns (key: string)
    ensures key == Key(o)
  {
    var parts := [o.group.name];
    if o.group.byName {
      parts := parts + ["__name=" + o.metric.name];
    }
    if o.group.byType {
      parts := parts + ["__type=" + KindName(o.metric.kind)];
    }
    var names := o.group.labels;
    ghost var before := parts;
    assert before == [o.group.name] + NameParts(o) + TypeParts(o);
    for i := 0 to |names|
      invariant parts == before + LabelParts(names[..i], o.attrs)
    {
      var value := Get(o.attrs, names[i]);
      assert names[..i + 1][..i] == names[..i];
      if value.Some? {
        parts := parts + [names[i] + "=" + value.value];
      }
    }
    assert names[..|names|] == names;
    key := Join(parts);
  }

  // ---- Decoding a key

  const SOURCE: string := "telemetrystatsprocessor:0.0.1"

  type Labels = map<string, string>

  function ShownName(name: string): string {
    if name == "__name" then "metric_name" else if name == "__type" then "metric_type" else name
  }

  /** One `name=value` part; a part without `=` is ignored. */
  function Put(labels: Labels, part: string): Labels {
    var i := Find(part, '=');
    if i == |part| then labels else labels[ShownName(part[..i]) := part[i + 1..]]
  }

  function PutAll(labels: Labels, parts: seq<string>): Labels {
    if parts == [] then labels
    else
      var n := |parts| - 1;
      Put(PutAll(labels, parts[..n]), parts[n])
  }

  function Start(grouping: string): Labels {
    map["source" := SOURCE, "grouping" := grouping]
  }

  function Decode(key: string): Labels {
    var parts := Split(key);
    PutAll(Start(parts[0]), parts[1..])
  }

  /** The body of the loop over the counts in scrapeMetricStats. */
  method DecodeKey(key: string) returns (labels: Labels)
    ensures labels == Decode(key)
  {
    var parts := Split(key);
    labels := map[];
    labels := labels["source" := SOURCE];
    labels := labels["grouping" := parts[0]];
    assert labels == Start(parts[0]);
    var rest := parts[1..];
    for i := 0 to |rest|
      invariant labels == PutAll(Start(parts[0]), rest[..i])
    {
      assert rest[..i + 1][..i] == rest[..i];
      labels := Put(labels, rest[i]);
    }
    assert rest[..|rest|] == rest;
  }

  // ---- Decoding inverts generating

  /** The labels a grouping is documented to report for a datapoint. */
  function LabelsOf(o: Observation): Labels {
    Start(o.group.name)
    + (if o.group.byName then map["metric_name" := o.metric.name] else map[])
    + (if o.group.byType then map["metric_type" := KindName(o.metric.kind)] else map[])
    + Present(o.group.labels, o.attrs)
  }

  /** The labels of those names that the datapoint has. */
  function Present(names: seq<string>, attrs: Attributes): Labels {
    map name | name in names && Get(attrs, name).Some? :: Get(attrs, name).value
  }

  const RESERVED: set<string> := {"source", "grouping", "metric_name", "metric_type", "__name", "__type"}

  predicate PlainName(name: string) {
    ':' !in name && '=' !in name && name !in RESERVED
  }

  /** The configured label names have no colon or equals sign, and none is reserved. */
  predicate PlainLabels(g: Grouping) {
    forall name | name in g.labels :: PlainName(name)
  }

  /** No colon in the texts that go into the key. */
  predicate Encodable(o: Observation) {
    && ':' !in o.group.name
    && (o.group.byName ==> ':' !in o.metric.name)
    && (forall name | name in o.group.labels && Get(o.attrs, name).Some? :: ':' !in Get(o.attrs, name).value)
  }

  lemma PutPart(labels: Labels, name: string, value: string)
    requires '=' !in name
    ensures Put(labels, name + "=" + value) == labels[ShownName(name) := value]
  {
    FindAt(name, '=', value);
    var part := name + "=" + value;
    assert part == name + ['='] + value;
    assert part[..|name|] == name && part[|name| + 1..] == value;
  }

  lemma PutLast(labels: Labels, parts: seq<string>, part: string)
    ensures PutAll(labels, parts + [part]) == Put(PutAll(labels, parts), part)
  {
    assert (parts + [part])[..|parts|] == parts;
  }

  lemma PresentLast(names: seq<string>, attrs: Attributes)
    requires names != []
    ensures var n := |names| - 1;
            var value := Get(attrs, names[n]);
            Present(names, attrs) == if value.Some? then Present(names[..n], attrs)[names[n] := value.value]
              else Present(names[..n], attrs)
  {
    assert names == names[..|names| - 1] + [names[|names| - 1]];
  }

  lemma PutPlain(labels: Labels, present: Labels, name: string, value: string)
    requires PlainName(name)
    ensures Put(labels + present, name + "=" + value) == labels + present[name := value]
  {
    PutPart(labels + present, name, value);
  }

  lemma {:induction false} PutLabels(labels: Labels, names: seq<string>, attrs: Attributes)
    requires forall name | name in names :: PlainName(name)
    ensures PutAll(labels, LabelParts(names, attrs)) == labels + Present(names, attrs)
  {
    if names == [] {
      assert Present(names, attrs) == map[];
    } else {
      var n := |names| - 1;
      var name, value, front := names[n], Get(attrs, names[n]), LabelParts(names[..n], attrs);
      assert PlainName(name);
      PutLabels(labels, names[..n], attrs);
      PresentLast(names, attrs);
      if value.Some? {
        PutLast(labels, front, name + "=" + value.value);
        PutPlain(labels, Present(names[..n], attrs), name, value.value);
      } else {
        assert front + [] == front;
      }
    }
  }

  lemma {:induction false} PutAllConcat(labels: Labels, a: seq<string>, b: seq<string>)
    ensures PutAll(labels, a + b) == PutAll(PutAll(labels, a), b)
  {
    if b == [] {
      assert a + b == a;
    } else {
      var n := |b| - 1;
      PutAllConcat(labels, a, b[..n]);
      assert a + b == (a + b[..n]) + [b[n]];
      PutLast(labels, a + b[..n], b[n]);
    }
  }

  lemma PutOne(labels: Labels, part: string)
    ensures PutAll(labels, [part]) == Put(labels, part)
  {
    PutLast(labels, [], part);
    assert [] + [part] == [part];
  }

  lemma {:induction false} LabelPartsColonFree(names: seq<string>, attrs: Attributes)
    requires forall name | name in names :: PlainName(name)
    requires forall name | name in names && Get(attrs, name).Some? :: ':' !in Get(attrs, name).value
    ensures ColonFree(LabelParts(names, attrs))
  {
    if names != [] {
      var n := |names| - 1;
      assert PlainName(names[n]);
      LabelPartsColonFree(names[..n], attrs);
    }
  }

  lemma PartsColonFree(o: Observation)
    requires PlainLabels(o.group) && Encodable(o)
    ensures ColonFree(Parts(o))
  {
    LabelPartsColonFree(o.group.labels, o.attrs);
    assert ColonFree([o.group.name]) && ColonFree(NameParts(o)) && ColonFree(TypeParts(o));
  }

  /** Putting the parts one after the other gives the documented labels. */
  lemma PutParts(o: Observation)
    requires PlainLabels(o.group)
    ensures PutAll(Start(o.group.name), Parts(o)[1..]) == LabelsOf(o)
  {
    var start := Start(o.group.name);
    var named, typed, labelled := NameParts(o), TypeParts(o), LabelParts(o.group.labels, o.attrs);
    assert Parts(o)[1..] == named + typed + labelled;
    PutAllConcat(start, named + typed, labelled);
    PutAllConcat(start, named, typed);
    PutName(start, o);
    PutType(PutAll(start, named), o);
    PutLabels(PutAll(start, named + typed), o.group.labels, o.attrs);
  }

  lemma PutName(labels: Labels, o: Observation)
    ensures PutAll(labels, NameParts(o)) == labels
            + (if o.group.byName then map["metric_name" := o.metric.name] else map[])
  {
    if o.group.byName {
      PutOne(labels, "__name=" + o.metric.name);
      assert "__name=" + o.metric.name == "__name" + "=" + o.metric.name;
      PutPart(labels, "__name", o.metric.name);
    }
  }

  lemma PutType(labels: Labels, o: Observation)
    ensures PutAll(labels, TypeParts(o)) == labels
            + (if o.group.byType then map["metric_type" := KindName(o.metric.kind)] else map[])
  {
    if o.group.byType {
      PutOne(labels, "__type=" + KindName(o.metric.kind));
      assert "__type=" + KindName(o.metric.kind) == "__type" + "=" + KindName(o.metric.kind);
      PutPart(labels, "__type", KindName(o.metric.kind));
    }
  }

  lemma RoundTrip(o: Observation)
    requires PlainLabels(o.group) && Encodable(o)
    ensures Decode(Key(o)) == LabelsOf(o)
  {
    PartsColonFree(o);
    SplitJoin(Parts(o));
    PutParts(o);
  }

  lemma PutColonFree(labels: Labels, part: string)
    requires ':' !in part && forall k | k in labels && k != "source" :: ':' !in labels[k]
    ensures forall k | k in Put(labels, part) && k != "source" :: ':' !in Put(labels, part)[k]
  {
    var i := Find(part, '=');
    if i < |part| {
      assert forall c | c in part[i + 1..] :: c in part;
    }
  }

  /** No decoded value but the source has a colon. */
  lemma {:induction false} PutAllColonFree(labels: Labels, parts: seq<string>)
    requires ColonFree(parts) && forall k | k in labels && k != "source" :: ':' !in labels[k]
    ensures forall k | k in PutAll(labels, parts) && k != "source" :: ':' !in PutAll(labels, parts)[k]
  {
    if parts != [] {
      var n := |parts| - 1;
      PutAllColonFree(labels, parts[..n]);
      PutColonFree(PutAll(labels, parts[..n]), parts[n]);
    }
  }

  lemma DecodedColonFree(key: string)
    ensures forall k | k in Decode(key) && k != "source" :: ':' !in Decode(key)[k]
  {
    var parts := Split(key);
    assert parts[0] in parts;
    PutAllColonFree(Start(parts[0]), parts[1..]);
  }

  lemma LabelsShowTexts(o: Observation)
    requires PlainLabels(o.group)
    ensures LabelsOf(o)["grouping"] == o.group.name
    ensures o.group.byName ==> LabelsOf(o)["metric_name"] == o.metric.name
    ensures forall name | name in o.group.labels && Get(o.attrs, name).Some? ::
              name in LabelsOf(o) && LabelsOf(o)[name] == Get(o.attrs, name).value
  {
  }

  /** Decoding a key gives the documented labels exactly when no text in it has a colon. */
  lemma RoundTripIff(o: Observation)
    requires PlainLabels(o.group)
    ensures Decode(Key(o)) == LabelsOf(o) <==> Encodable(o)
  {
    if Encodable(o) {
      RoundTrip(o);
    }
    DecodedColonFree(Key(o));
    LabelsShowTexts(o);
  }

  // ---- One key for one set of labels

  lemma {:induction false} LabelPartsSame(names: seq<string>, a: Attributes, b: Attributes)
    requires forall name | name in names :: Get(a, name) == Get(b, name)
    ensures LabelParts(names, a) == LabelParts(names, b)
  {
    if names != [] {
      var n := |names| - 1;
      assert names[n] in names;
      LabelPartsSame(names[..n], a, b);
    }
  }

  /** A plain name is among the labels exactly if it is configured and present, with its value. */
  lemma LabelShown(o: Observation, name: string)
    requires PlainLabels(o.group) && name in o.group.labels
    ensures Get(o.attrs, name) == if name in LabelsOf(o) then Some(LabelsOf(o)[name]) else None
  {
    assert PlainName(name);
  }

  lemma SameLabelsSameKey(x: Observation, y: Observation)
    requires x.group == y.group && PlainLabels(x.group) && LabelsOf(x) == LabelsOf(y)
    ensures Key(x) == Key(y)
  {
    LabelsShowTexts(x);
    LabelsShowTexts(y);
    LabelsShowType(x);
    LabelsShowType(y);
    forall name | name in x.group.labels
      ensures Get(x.attrs, name) == Get(y.attrs, name)
    {
      LabelShown(x, name);
      LabelShown(y, name);
    }
    LabelPartsSame(x.group.labels, x.attrs, y.attrs);
    assert Parts(x) == Parts(y);
  }

  lemma LabelsShowType(o: Observation)
    requires PlainLabels(o.group)
    ensures o.group.byType ==> LabelsOf(o)["metric_type"] == KindName(o.metric.kind)
  {
  }

  // ---- Which attribute a label shows

  /** The label shows that value; a value that is not text is not shown. */
  predicate Shows(labels: Labels, name: string, value: Value) {
    if value.Str? then name in labels && labels[name] == value.text else name !in labels
  }

  /**
   A label shows the attribute of the datapoint, if there is one, or else of the scope, or else of
   the resource. One that is not text hides those further out.
   */
  lemma LabelIsInnermost(o: Observation, name: string)
    requires PlainLabels(o.group) && name in o.group.labels
    ensures name in o.attrs.datapoint ==> Shows(LabelsOf(o), name, o.attrs.datapoint[name])
    ensures name !in o.attrs.datapoint && name in o.attrs.scope ==> Shows(LabelsOf(o), name, o.attrs.scope[name])
    ensures name !in o.attrs.datapoint && name !in o.attrs.scope && name in o.attrs.resource ==>
              Shows(LabelsOf(o), name, o.attrs.resource[name])
    ensures name !in o.attrs.datapoint && name !in o.attrs.scope && name !in o.attrs.resource ==> name !in LabelsOf(o)
  {
    LabelShown(o, name);
  }

  /** Both have the same value for the name on the datapoint, or else in the scope. */
  predicate SameInside(a: Attributes, b: Attributes, name: string) {
    || (name in a.datapoint && name in b.datapoint && a.datapoint[name] == b.datapoint[name])
    || (&& name !in a.datapoint && name !in b.datapoint
        && name in a.scope && name in b.scope && a.scope[name] == b.scope[name])
  }

  /** So what scope and resource hold for names that are set further in makes no difference to the count. */
  lemma OuterAttributesAreHidden(x: Observation, y: Observation)
    requires x.group == y.group && x.metric == y.metric
    requires forall name | name in x.group.labels :: SameInside(x.attrs, y.attrs, name)
    ensures Key(x) == Key(y)
  {
    forall name | name in x.group.labels
      ensures Get(x.attrs, name) == Get(y.attrs, name)
    {
      assert SameInside(x.attrs, y.attrs, name);
    }
    LabelPartsSame(x.group.labels, x.attrs, y.attrs);
  }

  /** A scraped label, decoded from the key, is that attribute. */
  lemma ScrapedLabelIsInnermost(o: Observation, name: string)
    requires PlainLabels(o.group) && Encodable(o) && name in o.group.labels && name in o.attrs.datapoint
    ensures Shows(Decode(Key(o)), name, o.attrs.datapoint[name])
  {
    RoundTrip(o);
    LabelIsInnermost(o, name);
  }

  /** Supported kinds have different names, by which they are reported. */
  lemma KindNames(j: Kind, k: Kind)
    ensures KindName(Gauge) == "Gauge" && KindName(Sum) == "Counter"
    ensures KindName(Histogram) == "Histogram" && KindName(Summary) == "Summary"
    ensures KindName(j) == KindName(k) <==> j == k
  {
    assert KindName(j)[0] == KindName(k)[0] ==> j == k;
  }

  /** The key as text, with everything in it. */
  lemma KeyReads(o: Observation, name: string, value: string)
    requires o.group.byName && o.group.byType && o.group.labels == [name] && Get(o.attrs, name) == Some(value)
    ensures Key(o) == o.group.name + ":" + ("__name=" + o.metric.name + ":"
                      + ("__type=" + KindName(o.metric.kind) + ":" + (name + "=" + value)))
  {
    var parts := [o.group.name, "__name=" + o.metric.name, "__type=" + KindName(o.metric.kind), name + "=" + value];
    assert [name][..0] == [] && LabelParts([name], o.attrs) == [parts[3]];
    assert NameParts(o) == [parts[1]] && TypeParts(o) == [parts[2]];
    assert Parts(o) == parts;
    assert parts[1..][1..][1..] == [parts[3]];
    assert Join(parts[1..][1..]) == parts[2] + ":" + parts[3];
    assert Join(parts[1..]) == parts[1] + ":" + Join(parts[1..][1..]);
  }

  predicate DistinctNames(groupings: seq<Grouping>) {
    forall i, j | 0 <= i < j < |groupings| :: groupings[i].name != groupings[j].name
  }

  /** Among the groupings of one config, two datapoints have one key exactly if they have the same labels. */
  lemma KeyIffLabels(groupings: seq<Grouping>, x: Observation, y: Observation)
    requires DistinctNames(groupings) && x.group in groupings && y.group in groupings
    requires PlainLabels(x.group) && PlainLabels(y.group) && Encodable(x) && Encodable(y)
    ensures Key(x) == Key(y) <==> LabelsOf(x) == LabelsOf(y)
  {
    RoundTrip(x);
    RoundTrip(y);
    if LabelsOf(x) == LabelsOf(y) {
      LabelsShowTexts(x);
      LabelsShowTexts(y);
      SameLabelsSameKey(x, y);
    }
  }
}
