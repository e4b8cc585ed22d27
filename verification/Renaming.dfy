/**
 Making way for configured labels. A scraped label that has the name of a configured one is
 moved aside, one configured label after the other, so a label can be moved more than once and
 can be moved onto another one.
 */
module Renaming {
  import opened Wrappers
  import opened Text
  import opened MetricKeys

  datatype Label = Label(name: string, value: string)

  function Aside(name: string): string {
    "metric_" + name
  }

  function MoveAside(labels: Labels, name: string): Labels {
    if name in labels then (labels - {name})[Aside(name) := labels[name]] else labels
  }

  function Renamed(labels: Labels, configured: seq<Label>): Labels {
    if configured == [] then labels
    else
      var n := |configured| - 1;
      MoveAside(Renamed(labels, configured[..n]), configured[n].name)
  }

  method RenameLabels(labels: Labels, configured: seq<Label>) returns (renamed: Labels)
    ensures renamed == Renamed(labels, configured)
  {
    renamed := labels;
    for i := 0 to |configured|
      invariant renamed == Renamed(labels, configured[..i])
    {
      assert configured[..i + 1][..i] == configured[..i];
      var name := configured[i].name;
      if name in renamed {
        var value := renamed[name];
        renamed := renamed - {name};
        renamed := renamed["metric_" + name := value];
      }
    }
    assert configured[..|configured|] == configured;
  }

  // ---- Where a label ends up

  /** The name that a label of that name ends up under. */
  function Lands(name: string, configured: seq<Label>): string {
    if configured == [] then name
    else
      var n := |configured| - 1;
      var now := Lands(name, configured[..n]);
      if now == configured[n].name then Aside(now) else now
  }

  predicate LandsOn(labels: Labels, configured: seq<Label>, k: string) {
    exists n | n in labels :: Lands(n, configured) == k
  }

  /** The renamed labels are those that labels land on. */
  lemma {:induction false} RenamedKeys(labels: Labels, configured: seq<Label>, k: string)
    ensures k in Renamed(labels, configured) <==> LandsOn(labels, configured, k)
  {
    if configured == [] {
      assert k in labels ==> Lands(k, configured) == k;
    } else {
      var n := |configured| - 1;
      var name := configured[n].name;
      RenamedKeys(labels, configured[..n], k);
      RenamedKeys(labels, configured[..n], name);
      if LandsOn(labels, configured[..n], k) && k != name {
        var m :| m in labels && Lands(m, configured[..n]) == k;
        assert Lands(m, configured) == k;
      }
      if LandsOn(labels, configured[..n], name) && k == Aside(name) {
        var m :| m in labels && Lands(m, configured[..n]) == name;
        assert Lands(m, configured) == k;
      }
      if LandsOn(labels, configured, k) {
        var m :| m in labels && Lands(m, configured) == k;
        assert Lands(m, configured[..n]) in {k, name};
      }
    }
  }

  // ---- Labels never overtake each other

  function Times(k: nat, name: string): (r: string)
    ensures |r| == |name| + 7 * k
  {
    if k == 0 then name else Aside(Times(k - 1, name))
  }

  lemma {:induction false} TimesAside(k: nat, name: string)
    ensures Times(k, Aside(name)) == Times(k + 1, name)
  {
    if k > 0 {
      TimesAside(k - 1, name);
    }
  }

  lemma {:induction false} LandsTimes(name: string, configured: seq<Label>) returns (k: nat)
    ensures Lands(name, configured) == Times(k, name)
  {
    k := 0;
    if configured != [] {
      var n := |configured| - 1;
      k := LandsTimes(name, configured[..n]);
      if Lands(name, configured[..n]) == configured[n].name {
        k := k + 1;
      }
    }
  }

  lemma {:induction false} TimesCancel(i: nat, j: nat, a: string, b: string)
    requires Times(i, a) == Times(j, b) && j <= i
    ensures b == Times(i - j, a)
  {
    if j > 0 {
      SamePrefix("metric_", Times(i - 1, a), Times(j - 1, b));
      TimesCancel(i - 1, j - 1, a, b);
    }
  }

  /** Of two names that land together, the longer one is the shorter one moved some times. */
  lemma SameLanding(a: string, b: string, configured: seq<Label>) returns (d: nat)
    requires Lands(a, configured) == Lands(b, configured) && |a| <= |b|
    ensures b == Times(d, a)
  {
    var i := LandsTimes(a, configured);
    var j := LandsTimes(b, configured);
    d := i - j;
    TimesCancel(i, j, a, b);
  }

  /** So it has the prefix of labels that were moved. */
  lemma LongerIsMoved(a: string, b: string, configured: seq<Label>)
    ensures Lands(a, configured) == Lands(b, configured) && |a| < |b| ==> b[0] == 'm'
  {
    if Lands(a, configured) == Lands(b, configured) && |a| < |b| {
      var d := SameLanding(a, b, configured);
      assert b == Aside(Times(d - 1, a));
    }
  }

  lemma {:induction false} NoOvertaking(a: string, d: nat, configured: seq<Label>) returns (e: nat)
    ensures Lands(Times(d, a), configured) == Times(e, Lands(a, configured))
  {
    e := d;
    if configured != [] {
      var n := |configured| - 1;
      e := NoOvertaking(a, d, configured[..n]);
      var now, name := Lands(a, configured[..n]), configured[n].name;
      if now == name && e > 0 {
        TimesAside(e - 1, now);
        e := e - 1;
      } else if now != name && Times(e, now) == name {
        e := e + 1;
      }
    }
  }

  // ---- Which value is left

  /** No shorter name lands where `n` does. */
  predicate Foremost(labels: Labels, configured: seq<Label>, n: string) {
    forall m | m in labels && Lands(m, configured) == Lands(n, configured) :: |n| <= |m|
  }

  lemma NotMovedOnto(labels: Labels, configured: seq<Label>, n: string, m: string)
    requires configured != [] && n in labels && m in labels && Foremost(labels, configured, n)
    requires Lands(m, configured[..|configured| - 1]) == configured[|configured| - 1].name
    ensures Aside(configured[|configured| - 1].name) != Lands(n, configured[..|configured| - 1])
  {
    var front, name := configured[..|configured| - 1], configured[|configured| - 1].name;
    if Aside(name) == Lands(n, front) {
      assert |Aside(name)| == |name| + 7;
      assert Lands(m, configured) == Lands(n, configured);
      var d := SameLanding(n, m, configured);
      var e := NoOvertaking(n, d, front);
    }
  }

  /** The value of such a label is the one that is left. */
  lemma {:induction false} Survives(labels: Labels, configured: seq<Label>, n: string)
    requires n in labels && Foremost(labels, configured, n)
    ensures Lands(n, configured) in Renamed(labels, configured)
    ensures Renamed(labels, configured)[Lands(n, configured)] == labels[n]
  {
    if configured != [] {
      var front, name := configured[..|configured| - 1], configured[|configured| - 1].name;
      assert Foremost(labels, front, n);
      Survives(labels, front, n);
      if name in Renamed(labels, front) {
        RenamedKeys(labels, front, name);
        var m :| m in labels && Lands(m, front) == name;
        NotMovedOnto(labels, configured, n, m);
      }
    }
  }

  lemma {:induction false} FindForemost(labels: Labels, configured: seq<Label>, n: string) returns (m: string)
    requires n in labels
    ensures m in labels && Lands(m, configured) == Lands(n, configured) && |m| <= |n| && Foremost(labels, configured, m)
    decreases |n|
  {
    m := n;
    if !Foremost(labels, configured, n) {
      var k :| k in labels && Lands(k, configured) == Lands(n, configured) && |k| < |n|;
      m := FindForemost(labels, configured, k);
    }
  }

  /** A label that a shorter one lands with might have any value. */
  lemma LostLabel(labels: Labels, configured: seq<Label>, a: string, b: string, value: string)
    requires a in labels && b in labels && |a| < |b| && Lands(a, configured) == Lands(b, configured)
    ensures Renamed(labels[b := value], configured) == Renamed(labels, configured)
  {
    var other := labels[b := value];
    forall k: string
      ensures k in Renamed(labels, configured) <==> k in Renamed(other, configured)
      ensures k in Renamed(labels, configured) && k in Renamed(other, configured) ==>
                Renamed(other, configured)[k] == Renamed(labels, configured)[k]
    {
      RenamedKeys(labels, configured, k);
      RenamedKeys(other, configured, k);
      if LandsOn(labels, configured, k) {
        var n :| n in labels && Lands(n, configured) == k;
        var m := FindForemost(labels, configured, if Lands(a, configured) == k then a else n);
        assert m != b && other[m] == labels[m] && Foremost(other, configured, m);
        Survives(labels, configured, m);
        Survives(other, configured, m);
      }
    }
  }

  // ---- When all configured labels have their way

  /** None of the configured labels is left to overwrite. */
  predicate Clear(labels: Labels, configured: seq<Label>) {
    forall c | c in configured :: c.name !in labels
  }

  /** The names that decoding can produce. */
  predicate Decodable(name: string) {
    ':' !in name && '=' !in name && name != "__name" && name != "__type"
  }

  lemma PutDecodable(labels: Labels, part: string)
    requires ':' !in part && forall n | n in labels :: Decodable(n)
    ensures forall n | n in Put(labels, part) :: Decodable(n)
  {
    var i := Find(part, '=');
    if i < |part| {
      assert '=' !in part[..i] && ':' !in part[..i];
    }
  }

  lemma {:induction false} PutAllDecodable(labels: Labels, parts: seq<string>)
    requires ColonFree(parts) && forall n | n in labels :: Decodable(n)
    ensures forall n | n in PutAll(labels, parts) :: Decodable(n)
  {
    if parts != [] {
      var k := |parts| - 1;
      PutAllDecodable(labels, parts[..k]);
      PutDecodable(PutAll(labels, parts[..k]), parts[k]);
    }
  }

  lemma DecodedIsDecodable(key: string)
    ensures forall n | n in Decode(key) :: Decodable(n)
  {
    var parts := Split(key);
    PutAllDecodable(Start(parts[0]), parts[1..]);
  }

  /** Each of them is produced for some datapoint. */
  lemma DecodableIsDecoded(name: string) returns (o: Observation)
    requires Decodable(name)
    ensures name in Decode(Key(o))
  {
    o := Observation(Grouping("g", false, false, [name]), Metric("", Gauge, []),
                     Attributes(map[], map[], map[name := Str("")]));
    assert [name][..0] == [] && LabelParts([name], o.attrs) == [name + "=" + ""];
    var parts := ["g", name + "=" + ""];
    assert Parts(o) == parts;
    assert ColonFree(parts);
    SplitJoin(parts);
    assert parts[1..] == [name + "=" + ""];
    PutOne(Start("g"), name + "=" + "");
    PutPart(Start("g"), name, "");
  }

  /** None of the configured labels from the `i`-th up to the `j`-th has that name. */
  predicate NoneNamed(configured: seq<Label>, i: nat, j: nat, name: string) {
    forall k | i <= k < j && k < |configured| :: configured[k].name != name
  }

  /**
   Before the turn of the `i`-th configured label a decoded label can have that name: it had it
   from the start, or was moved to it, and has not been moved since.
   */
  predicate Called(configured: seq<Label>, i: nat, name: string)
    requires i <= |configured|
    decreases i
  {
    || (Decodable(name) && NoneNamed(configured, 0, i, name))
    || exists l | 0 <= l < i ::
         Aside(configured[l].name) == name && NoneNamed(configured, l + 1, i, name)
           && Called(configured, l, configured[l].name)
  }

  /** A label is moved at the `j`-th turn to the name of the earlier `i`-th label, which does not come again. */
  predicate ClashAt(configured: seq<Label>, i: nat, j: nat)
    requires i < j < |configured|
  {
    && configured[i].name == Aside(configured[j].name) && Called(configured, j, configured[j].name)
    && NoneNamed(configured, j + 1, |configured|, configured[i].name)
  }

  predicate Clash(configured: seq<Label>) {
    exists i, j | 0 <= i < j < |configured| :: ClashAt(configured, i, j)
  }

  lemma CalledStep(configured: seq<Label>, i: nat, name: string)
    requires i < |configured|
    ensures Called(configured, i + 1, name) <==>
              || (Called(configured, i, name) && name != configured[i].name)
              || (name == Aside(configured[i].name) && Called(configured, i, configured[i].name))
  {
  }

  ghost predicate SomeLands(configured: seq<Label>, name: string) {
    exists n: string :: Decodable(n) && Lands(n, configured) == name
  }

  lemma LandsStep(configured: seq<Label>, i: nat, n: string)
    requires i < |configured|
    ensures var now := Lands(n, configured[..i]);
            Lands(n, configured[..i + 1]) == if now == configured[i].name then Aside(now) else now
  {
    assert configured[..i + 1][..i] == configured[..i];
  }

  lemma SomeLandsStep(configured: seq<Label>, i: nat, name: string)
    requires i < |configured|
    ensures SomeLands(configured[..i + 1], name) <==>
              || (SomeLands(configured[..i], name) && name != configured[i].name)
              || (name == Aside(configured[i].name) && SomeLands(configured[..i], configured[i].name))
  {
    if SomeLands(configured[..i], name) && name != configured[i].name {
      var n :| Decodable(n) && Lands(n, configured[..i]) == name;
      LandsStep(configured, i, n);
    }
    if name == Aside(configured[i].name) && SomeLands(configured[..i], configured[i].name) {
      var n :| Decodable(n) && Lands(n, configured[..i]) == configured[i].name;
      LandsStep(configured, i, n);
    }
    if SomeLands(configured[..i + 1], name) {
      var n :| Decodable(n) && Lands(n, configured[..i + 1]) == name;
      LandsStep(configured, i, n);
      assert Lands(n, configured[..i]) in {name, configured[i].name};
    }
  }

  lemma {:induction false} CalledIff(configured: seq<Label>, i: nat, name: string)
    requires i <= |configured|
    ensures Called(configured, i, name) <==> SomeLands(configured[..i], name)
    decreases i
  {
    if i == 0 {
      assert configured[..0] == [];
      assert Lands(name, []) == name;
    } else {
      CalledIff(configured, i - 1, name);
      CalledIff(configured, i - 1, configured[i - 1].name);
      CalledStep(configured, i - 1, name);
      SomeLandsStep(configured, i - 1, name);
    }
  }

  lemma WasMoved(configured: seq<Label>, i: nat, name: string) returns (l: nat)
    requires i <= |configured| && Called(configured, i, name) && !NoneNamed(configured, 0, i, name)
    ensures l < i && Aside(configured[l].name) == name && NoneNamed(configured, l + 1, i, name)
    ensures Called(configured, l, configured[l].name)
  {
    l :| 0 <= l < i && Aside(configured[l].name) == name
         && NoneNamed(configured, l + 1, i, name) && Called(configured, l, configured[l].name);
  }

  /** A configured name that a label ends up under is one it was moved to after that name's turn. */
  lemma EndIsClash(configured: seq<Label>, i: nat)
    requires i < |configured| && Called(configured, |configured|, configured[i].name)
    ensures Clash(configured)
  {
    var l := WasMoved(configured, |configured|, configured[i].name);
    assert |configured[i].name| == |configured[l].name| + 7;
    assert ClashAt(configured, i, l);
  }

  lemma ClashIsEnd(configured: seq<Label>) returns (c: Label)
    requires Clash(configured)
    ensures c in configured && Called(configured, |configured|, c.name)
  {
    var i, j :| 0 <= i < j < |configured| && ClashAt(configured, i, j);
    c := configured[i];
  }

  /** Where labels clash, a configured label overwrites one of some datapoint. */
  lemma ClashOverwrites(configured: seq<Label>) returns (o: Observation)
    requires Clash(configured)
    ensures !Clear(Renamed(Decode(Key(o)), configured), configured)
  {
    var c := ClashIsEnd(configured);
    CalledIff(configured, |configured|, c.name);
    assert configured[..|configured|] == configured;
    var n :| Decodable(n) && Lands(n, configured) == c.name;
    o := DecodableIsDecoded(n);
    RenamedKeys(Decode(Key(o)), configured, c.name);
  }

  lemma NoClashIsClear(configured: seq<Label>, key: string)
    requires !Clash(configured)
    ensures Clear(Renamed(Decode(key), configured), configured)
  {
    DecodedIsDecodable(key);
    assert configured[..|configured|] == configured;
    forall i | 0 <= i < |configured|
      ensures configured[i].name !in Renamed(Decode(key), configured)
    {
      RenamedKeys(Decode(key), configured, configured[i].name);
      CalledIff(configured, |configured|, configured[i].name);
      if Called(configured, |configured|, configured[i].name) {
        EndIsClash(configured, i);
      }
    }
  }

  /**
   Whatever is scraped, all configured labels have their way, exactly when no label that can be
   decoded is moved to the name of an earlier configured label that does not come again.
   */
  lemma RenamingClearsIff(configured: seq<Label>)
    ensures (forall key: string :: Clear(Renamed(Decode(key), configured), configured)) <==> !Clash(configured)
  {
    if Clash(configured) {
      var o := ClashOverwrites(configured);
      assert !Clear(Renamed(Decode(Key(o)), configured), configured);
    } else {
      forall key: string
        ensures Clear(Renamed(Decode(key), configured), configured)
      {
        NoClashIsClear(configured, key);
      }
    }
  }

  lemma {:induction false} CalledIsDecodable(configured: seq<Label>, i: nat, name: string)
    requires i <= |configured| && Called(configured, i, name)
    ensures Decodable(name)
    decreases i
  {
    if !(Decodable(name) && NoneNamed(configured, 0, i, name)) {
      var l :| 0 <= l < i && Aside(configured[l].name) == name && Called(configured, l, configured[l].name);
      CalledIsDecodable(configured, l, configured[l].name);
      assert name[0] == 'm';
    }
  }

  predicate Distinct(configured: seq<Label>) {
    forall k, l | 0 <= k < l < |configured| :: configured[k].name != configured[l].name
  }

  predicate MovedOnto(configured: seq<Label>, i: nat, j: nat)
    requires i < j < |configured|
  {
    configured[i].name == Aside(configured[j].name) && Decodable(configured[j].name)
  }

  /** Where no configured name is repeated, that is: one that can be decoded is moved to an earlier one. */
  lemma ClashWithoutRepeats(configured: seq<Label>)
    requires Distinct(configured)
    ensures Clash(configured) <==> exists i, j | 0 <= i < j < |configured| :: MovedOnto(configured, i, j)
  {
    forall i, j | 0 <= i < j < |configured|
      ensures ClashAt(configured, i, j) <==> MovedOnto(configured, i, j)
    {
      if Called(configured, j, configured[j].name) {
        CalledIsDecodable(configured, j, configured[j].name);
      }
    }
  }

  // ---- When renaming keeps label sets apart

  /** No two of these names end up under one name. */
  predicate LandApart(configured: seq<Label>, names: set<string>) {
    forall a, b | a in names && b in names && Lands(a, configured) == Lands(b, configured) :: a == b
  }

  lemma RenamedInjective(x: Labels, y: Labels, configured: seq<Label>, names: set<string>)
    requires x.Keys <= names && y.Keys <= names && LandApart(configured, names)
    requires Renamed(x, configured) == Renamed(y, configured)
    ensures x == y
  {
    forall n | n in x
      ensures n in y && y[n] == x[n]
    {
      SharedLabel(x, y, configured, names, n);
    }
    forall n | n in y
      ensures n in x
    {
      SharedLabel(y, x, configured, names, n);
    }
  }

  lemma SharedLabel(x: Labels, y: Labels, configured: seq<Label>, names: set<string>, n: string)
    requires x.Keys <= names && y.Keys <= names && LandApart(configured, names) && n in x
    requires Renamed(x, configured) == Renamed(y, configured)
    ensures n in y && y[n] == x[n]
  {
    Survives(x, configured, n);
    RenamedKeys(y, configured, Lands(n, configured));
    Survives(y, configured, n);
  }

  /** The names of the labels a grouping can report. */
  function NamesOf(g: Grouping): set<string> {
    {"source", "grouping"}
    + (if g.byName then {"metric_name"} else {})
    + (if g.byType then {"metric_type"} else {})
    + (set name | name in g.labels)
  }

  lemma NamesCover(o: Observation)
    ensures LabelsOf(o).Keys <= NamesOf(o.group)
  {
  }

  /** A datapoint with all labels of the grouping; `text` and `kind` are told by the label `b`. */
  function Sample(g: Grouping, b: string, text: string, kind: Kind): Observation {
    Observation(g, Metric(if b == "metric_name" then text else "", kind, []),
                Attributes(map[], map[], map name | name in g.labels :: Str(if name == b then text else "")))
  }

  function SampleValue(g: Grouping, b: string, text: string, kind: Kind, n: string): string {
    if n == "source" then SOURCE
    else if n == "grouping" then g.name
    else if n == "metric_type" then KindName(kind)
    else if n == b then text
    else ""
  }

  lemma SampleShowsLabel(g: Grouping, b: string, text: string, kind: Kind, n: string)
    requires PlainLabels(g) && n in g.labels
    ensures n in LabelsOf(Sample(g, b, text, kind))
            && LabelsOf(Sample(g, b, text, kind))[n] == if n == b then text else ""
    ensures n !in RESERVED
  {
    var o := Sample(g, b, text, kind);
    assert PlainName(n) && Get(o.attrs, n) == Some(if n == b then text else "");
    LabelsShowTexts(o);
  }

  lemma LabelsShowSource(o: Observation)
    requires PlainLabels(o.group)
    ensures LabelsOf(o)["source"] == "telemetrystatsprocessor:0.0.1"
  {
  }

  lemma SampleShows(g: Grouping, b: string, text: string, kind: Kind, n: string)
    requires PlainLabels(g) && n in NamesOf(g)
    ensures n in LabelsOf(Sample(g, b, text, kind))
    ensures LabelsOf(Sample(g, b, text, kind))[n] == SampleValue(g, b, text, kind, n)
  {
    if n in g.labels {
      SampleShowsLabel(g, b, text, kind, n);
    } else if n == "source" {
      LabelsShowSource(Sample(g, b, text, kind));
    } else if n == "metric_type" {
      LabelsShowType(Sample(g, b, text, kind));
    } else {
      LabelsShowTexts(Sample(g, b, text, kind));
    }
  }

  lemma SampleIsEncodable(g: Grouping, b: string, text: string, kind: Kind)
    requires ':' !in g.name && ':' !in text
    ensures Encodable(Sample(g, b, text, kind))
  {
  }

  lemma DifferAt(x: Labels, y: Labels, names: set<string>, b: string)
    requires x.Keys == names && y.Keys == names && b in names && forall n | n in names :: x[n] == y[n] <==> n != b
    ensures y == x[b := y[b]] && y[b] != x[b]
  {
  }

  lemma SampleValuesDiffer(g: Grouping, b: string, kind: Kind, n: string)
    requires b !in {"source", "grouping"} && kind == if b == "metric_type" then Sum else Gauge
    ensures SampleValue(g, b, "", Gauge, n) == SampleValue(g, b, "0", kind, n) <==> n != b
  {
  }

  lemma SampleKeys(g: Grouping, b: string, text: string, kind: Kind)
    requires PlainLabels(g)
    ensures LabelsOf(Sample(g, b, text, kind)).Keys == NamesOf(g)
  {
    NamesCover(Sample(g, b, text, kind));
    forall n | n in NamesOf(g)
      ensures n in LabelsOf(Sample(g, b, text, kind))
    {
      SampleShows(g, b, text, kind, n);
    }
  }

  lemma SamplesDifferAt(g: Grouping, b: string, kind: Kind, n: string)
    requires PlainLabels(g) && n in NamesOf(g)
    requires b !in {"source", "grouping"} && kind == if b == "metric_type" then Sum else Gauge
    ensures var x, y := LabelsOf(Sample(g, b, "", Gauge)), LabelsOf(Sample(g, b, "0", kind));
            n in x && n in y && (x[n] == y[n] <==> n != b)
  {
    SampleShows(g, b, "", Gauge, n);
    SampleShows(g, b, "0", kind, n);
    SampleValuesDiffer(g, b, kind, n);
  }

  /** Two datapoints of the grouping that have all its labels and differ in `b` alone. */
  lemma SamplesDiffer(g: Grouping, b: string) returns (x: Observation, y: Observation)
    requires PlainLabels(g) && ':' !in g.name && b in NamesOf(g) && b !in {"source", "grouping"}
    ensures x.group == g && y.group == g && Encodable(x) && Encodable(y)
    ensures LabelsOf(x).Keys == NamesOf(g) == LabelsOf(y).Keys
    ensures LabelsOf(y) == LabelsOf(x)[b := LabelsOf(y)[b]] && LabelsOf(y)[b] != LabelsOf(x)[b]
  {
    var kind := if b == "metric_type" then Sum else Gauge;
    x, y := Sample(g, b, "", Gauge), Sample(g, b, "0", kind);
    SampleIsEncodable(g, b, "", Gauge);
    SampleIsEncodable(g, b, "0", kind);
    SampleKeys(g, b, "", Gauge);
    SampleKeys(g, b, "0", kind);
    forall n | n in NamesOf(g)
      ensures LabelsOf(x)[n] == LabelsOf(y)[n] <==> n != b
    {
      SamplesDifferAt(g, b, kind, n);
    }
    DifferAt(LabelsOf(x), LabelsOf(y), NamesOf(g), b);
  }

  /** Datapoints of the grouping with different labels are reported with different labels. */
  ghost predicate KeepsApart(g: Grouping, configured: seq<Label>) {
    forall x: Observation, y: Observation | x.group == g && y.group == g && Encodable(x) && Encodable(y)
      && Renamed(LabelsOf(x), configured) == Renamed(LabelsOf(y), configured) :: LabelsOf(x) == LabelsOf(y)
  }

  lemma LongerIsOptional(a: string, b: string, configured: seq<Label>)
    requires Lands(a, configured) == Lands(b, configured) && a != b && |a| <= |b|
    ensures |a| < |b| && b != "source" && b != "grouping"
  {
    var d := SameLanding(a, b, configured);
    LongerIsMoved(a, b, configured);
  }

  /** Where two names land together, two datapoints that differ in the longer one are reported alike. */
  lemma LandingTogetherMixes(g: Grouping, configured: seq<Label>, a: string, b: string)
    requires PlainLabels(g) && ':' !in g.name && a in NamesOf(g) && b in NamesOf(g)
    requires a != b && |a| <= |b| && Lands(a, configured) == Lands(b, configured)
    ensures !KeepsApart(g, configured)
  {
    LongerIsOptional(a, b, configured);
    var x, y := SamplesDiffer(g, b);
    LostLabel(LabelsOf(x), configured, a, b, LabelsOf(y)[b]);
  }

  /**
   Moving labels aside keeps the datapoints of a grouping apart exactly when no two of its label
   names end up under one name.
   */
  lemma RenamingKeepsApartIff(g: Grouping, configured: seq<Label>)
    requires PlainLabels(g) && ':' !in g.name
    ensures KeepsApart(g, configured) <==> LandApart(configured, NamesOf(g))
  {
    if LandApart(configured, NamesOf(g)) {
      forall x: Observation, y: Observation | x.group == g && y.group == g
        && Renamed(LabelsOf(x), configured) == Renamed(LabelsOf(y), configured)
        ensures LabelsOf(x) == LabelsOf(y)
      {
        NamesCover(x);
        NamesCover(y);
        RenamedInjective(LabelsOf(x), LabelsOf(y), configured, NamesOf(g));
      }
    } else {
      var a, b :| a in NamesOf(g) && b in NamesOf(g) && Lands(a, configured) == Lands(b, configured) && a != b;
      if |a| <= |b| {
        LandingTogetherMixes(g, configured, a, b);
      } else {
        LandingTogetherMixes(g, configured, b, a);
      }
    }
  }

  lemma GroupingIsForemost(labels: Labels, configured: seq<Label>)
    ensures Foremost(labels, configured, "grouping")
  {
    forall m | m in labels && Lands(m, configured) == Lands("grouping", configured)
      ensures |"grouping"| <= |m|
    {
      LongerIsMoved(m, "grouping", configured);
    }
  }

  /** Datapoints of different groupings are reported apart in any case. */
  lemma GroupingsStayApart(x: Observation, y: Observation, configured: seq<Label>)
    requires PlainLabels(x.group) && PlainLabels(y.group) && x.group.name != y.group.name
    ensures Renamed(LabelsOf(x), configured) != Renamed(LabelsOf(y), configured)
  {
    LabelsShowTexts(x);
    LabelsShowTexts(y);
    GroupingIsForemost(LabelsOf(x), configured);
    GroupingIsForemost(LabelsOf(y), configured);
    Survives(LabelsOf(x), configured, "grouping");
    Survives(LabelsOf(y), configured, "grouping");
  }
}
