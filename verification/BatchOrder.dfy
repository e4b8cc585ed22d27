/**
 Every accepted datapoint of a batch is counted exactly once. A datapoint is named by its
 position: which resource, scope, metric, grouping and point. The loops over a batch meet
 the accepted positions one after the other, each once, and no others.
 */
module BatchOrder {
  import opened MetricKeys
  import opened MetricCounts

  datatype Position = Position(resource: nat, scope: nat, metric: nat, grouping: nat, point: nat)

  predicate Exists(batch: Batch, groupings: seq<Grouping>, x: Position) {
    && x.resource < |batch| && x.scope < |batch[x.resource].scopes|
    && x.metric < |batch[x.resource].scopes[x.scope].metrics| && x.grouping < |groupings|
    && x.point < |batch[x.resource].scopes[x.scope].metrics[x.metric].points|
  }

  /** What is counted at a position. */
  function ObservedAt(batch: Batch, groupings: seq<Grouping>, x: Position): Observation
    requires Exists(batch, groupings, x)
  {
    var rm := batch[x.resource];
    var sm := rm.scopes[x.scope];
    var m := sm.metrics[x.metric];
    Observation(groupings[x.grouping], m, Attributes(rm.attrs, sm.attrs, m.points[x.point]))
  }

  predicate AcceptedAt(f: Filter, batch: Batch, groupings: seq<Grouping>, x: Position) {
    && Exists(batch, groupings, x)
    && var o := ObservedAt(batch, groupings, x);
       !("telemetry_stats_" <= o.metric.name) && !o.metric.kind.Unsupported? && f(o.group, o.metric, o.attrs)
  }

  // ---- Lists of positions

  /** The observations are those at the positions, in order. */
  ghost predicate Observes(batch: Batch, groupings: seq<Grouping>, order: seq<Position>, seen: seq<Observation>) {
    && |seen| == |order|
    && forall i | 0 <= i < |order| ::
      Exists(batch, groupings, order[i]) && seen[i] == ObservedAt(batch, groupings, order[i])
  }

  predicate Distinct(order: seq<Position>) {
    forall i, j | 0 <= i < j < |order| :: order[i] != order[j]
  }

  lemma ObservesConcat(batch: Batch, groupings: seq<Grouping>, a: seq<Position>, s: seq<Observation>, b: seq<Position>,
                       t: seq<Observation>)
    requires Observes(batch, groupings, a, s) && Observes(batch, groupings, b, t)
    ensures Observes(batch, groupings, a + b, s + t)
  {
  }

  lemma DistinctConcat(a: seq<Position>, b: seq<Position>)
    requires Distinct(a) && Distinct(b) && forall x | x in a :: x !in b
    ensures Distinct(a + b)
  {
    forall i, j | 0 <= i < j < |a + b|
      ensures (a + b)[i] != (a + b)[j]
    {
      if i < |a| <= j {
        assert a[i] in a && b[j - |a|] in b;
      }
    }
  }

  // ---- Level by level

  /** The datapoints of one grouping of one metric, up to `n`. */
  lemma {:induction false} PointsOnce(f: Filter, batch: Batch, groupings: seq<Grouping>, at: Position, n: nat)
    returns (order: seq<Position>)
    requires at.resource < |batch| && at.scope < |batch[at.resource].scopes| && at.grouping < |groupings|
    requires at.metric < |batch[at.resource].scopes[at.scope].metrics|
    requires var m := batch[at.resource].scopes[at.scope].metrics[at.metric];
             n <= |m.points| && !IsOwn(m) && !m.kind.Unsupported?
    ensures var rm := batch[at.resource];
            var sm := rm.scopes[at.scope];
            var m := sm.metrics[at.metric];
            Observes(batch, groupings, order, OfPoints(f, groupings[at.grouping], m, rm.attrs, sm.attrs, m.points[..n]))
    ensures Distinct(order)
    ensures forall x :: x in order <==> x == at.(point := x.point) && x.point < n && AcceptedAt(f, batch, groupings, x)
  {
    if n == 0 {
      order := [];
    } else {
      var rm := batch[at.resource];
      var sm := rm.scopes[at.scope];
      var m := sm.metrics[at.metric];
      var front := PointsOnce(f, batch, groupings, at, n - 1);
      var x := at.(point := n - 1);
      var last := if AcceptedAt(f, batch, groupings, x) then [x] else [];
      PointsStep(f, groupings[at.grouping], m, rm.attrs, sm.attrs, m.points, n - 1);
      order := front + last;
      DistinctConcat(front, last);
    }
  }

  /** The groupings of one metric, up to `n`. */
  lemma {:induction false} GroupingsOnce(f: Filter, batch: Batch, groupings: seq<Grouping>, at: Position, n: nat)
    returns (order: seq<Position>)
    requires at.resource < |batch| && at.scope < |batch[at.resource].scopes| && n <= |groupings|
    requires at.metric < |batch[at.resource].scopes[at.scope].metrics|
    requires !IsOwn(batch[at.resource].scopes[at.scope].metrics[at.metric])
    ensures var rm := batch[at.resource];
            var sm := rm.scopes[at.scope];
            Observes(batch, groupings, order, OfGroupings(f, groupings[..n], sm.metrics[at.metric], rm.attrs, sm.attrs))
    ensures Distinct(order)
    ensures forall x :: x in order <==>
              x == at.(grouping := x.grouping, point := x.point) && x.grouping < n && AcceptedAt(f, batch, groupings, x)
  {
    if n == 0 {
      order := [];
    } else {
      var rm := batch[at.resource];
      var sm := rm.scopes[at.scope];
      var m := sm.metrics[at.metric];
      var front := GroupingsOnce(f, batch, groupings, at, n - 1);
      var last: seq<Position> := [];
      if !m.kind.Unsupported? {
        last := PointsOnce(f, batch, groupings, at.(grouping := n - 1), |m.points|);
        assert m.points[..|m.points|] == m.points;
        ObservesConcat(batch, groupings, front, OfGroupings(f, groupings[..n - 1], m, rm.attrs, sm.attrs),
                       last, OfPoints(f, groupings[n - 1], m, rm.attrs, sm.attrs, m.points));
      }
      GroupingsStep(f, groupings, m, rm.attrs, sm.attrs, n - 1);
      order := front + last;
      DistinctConcat(front, last);
    }
  }

  /** The metrics of one scope, up to `n`. */
  lemma {:induction false} MetricsOnce(f: Filter, batch: Batch, groupings: seq<Grouping>, at: Position, n: nat)
    returns (order: seq<Position>)
    requires at.resource < |batch| && at.scope < |batch[at.resource].scopes|
    requires n <= |batch[at.resource].scopes[at.scope].metrics|
    ensures var rm := batch[at.resource];
            var sm := rm.scopes[at.scope];
            Observes(batch, groupings, order, OfMetrics(f, groupings, sm.metrics[..n], rm.attrs, sm.attrs))
    ensures Distinct(order)
    ensures forall x :: x in order <==>
              x.resource == at.resource && x.scope == at.scope && x.metric < n && AcceptedAt(f, batch, groupings, x)
  {
    if n == 0 {
      order := [];
    } else {
      var rm := batch[at.resource];
      var sm := rm.scopes[at.scope];
      var m := sm.metrics[n - 1];
      var front := MetricsOnce(f, batch, groupings, at, n - 1);
      var last: seq<Position> := [];
      if !IsOwn(m) {
        last := GroupingsOnce(f, batch, groupings, at.(metric := n - 1), |groupings|);
        assert groupings[..|groupings|] == groupings;
        ObservesConcat(batch, groupings, front, OfMetrics(f, groupings, sm.metrics[..n - 1], rm.attrs, sm.attrs),
                       last, OfGroupings(f, groupings, m, rm.attrs, sm.attrs));
      }
      MetricsStep(f, groupings, sm.metrics, rm.attrs, sm.attrs, n - 1);
      order := front + last;
      DistinctConcat(front, last);
    }
  }

  /** The scopes of one resource, up to `n`. */
  lemma {:induction false} ScopesOnce(f: Filter, batch: Batch, groupings: seq<Grouping>, r: nat, n: nat)
    returns (order: seq<Position>)
    requires r < |batch| && n <= |batch[r].scopes|
    ensures Observes(batch, groupings, order, OfScopes(f, groupings, batch[r].scopes[..n], batch[r].attrs))
    ensures Distinct(order)
    ensures forall x :: x in order <==> x.resource == r && x.scope < n && AcceptedAt(f, batch, groupings, x)
  {
    if n == 0 {
      order := [];
    } else {
      var rm := batch[r];
      var sm := rm.scopes[n - 1];
      var front := ScopesOnce(f, batch, groupings, r, n - 1);
      var last := MetricsOnce(f, batch, groupings, Position(r, n - 1, 0, 0, 0), |sm.metrics|);
      assert sm.metrics[..|sm.metrics|] == sm.metrics;
      ObservesConcat(batch, groupings, front, OfScopes(f, groupings, rm.scopes[..n - 1], rm.attrs),
                     last, OfMetrics(f, groupings, sm.metrics, rm.attrs, sm.attrs));
      ScopesStep(f, groupings, rm.scopes, rm.attrs, n - 1);
      order := front + last;
      DistinctConcat(front, last);
    }
  }

  lemma {:induction false} ResourcesOnce(f: Filter, batch: Batch, groupings: seq<Grouping>, n: nat)
    returns (order: seq<Position>)
    requires n <= |batch|
    ensures Observes(batch, groupings, order, OfBatch(f, groupings, batch[..n]))
    ensures Distinct(order)
    ensures forall x :: x in order <==> x.resource < n && AcceptedAt(f, batch, groupings, x)
  {
    if n == 0 {
      order := [];
    } else {
      var rm := batch[n - 1];
      var front := ResourcesOnce(f, batch, groupings, n - 1);
      var last := ScopesOnce(f, batch, groupings, n - 1, |rm.scopes|);
      assert rm.scopes[..|rm.scopes|] == rm.scopes;
      ObservesConcat(batch, groupings, front, OfBatch(f, groupings, batch[..n - 1]), last,
                     OfScopes(f, groupings, rm.scopes, rm.attrs));
      BatchStep(f, groupings, batch, n - 1);
      order := front + last;
      DistinctConcat(front, last);
    }
  }

  /** Every accepted position of a batch is counted exactly once, and nothing else is. */
  lemma EachAcceptedOnce(f: Filter, batch: Batch, groupings: seq<Grouping>) returns (order: seq<Position>)
    ensures Observes(batch, groupings, order, OfBatch(f, groupings, batch))
    ensures Distinct(order)
    ensures forall x :: x in order <==> AcceptedAt(f, batch, groupings, x)
  {
    order := ResourcesOnce(f, batch, groupings, |batch|);
    assert batch[..|batch|] == batch;
  }
}
