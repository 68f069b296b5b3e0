// Where the Drizzle adapter's series are not the metric of the rows, exactly:
// collapsed averages, minima and maxima, groups with the same key, and counts
// without groups.
module GroupedLimits {
  import opened Prelude
  import opened TopN
  import opened TimeSeries
  import opened TimeSeriesResults
  import opened GroupedSeries

  // ---- the collapsed series ------------------------------------------------

  // What adding the values of two groups gives beyond the value of their rows.
  function StepExcess(metric: Metric, a: Option<Entry>, b: Option<Entry>): real {
    if a.None? || b.None? then 0.0
    else match metric
      case Count => 0.0
      case Sum => 0.0
      case Min => if a.value.min < b.value.min then b.value.min else a.value.min
      case Max => if a.value.max < b.value.max then a.value.max else b.value.max
      case Avg => Reduce(Avg, a.value) + Reduce(Avg, b.value) - Reduce(Avg, Merge(a, b).value)
  }

  function Excess(rows: seq<Row>, metric: Metric, order: seq<string>, keep: set<string>, bucket: string): real {
    if order == [] then 0.0
    else
      var before, key := order[..|order| - 1], order[|order| - 1];
      Excess(rows, metric, before, keep, bucket)
      + if key in keep then 0.0
        else StepExcess(metric, Direct(rows, metric, Elems(before) - keep, bucket), Direct(rows, metric, {key}, bucket))
  }

  // How many dropped groups have a point in the bucket.
  function Points(rows: seq<Row>, metric: Metric, order: seq<string>, keep: set<string>, bucket: string): nat {
    if order == [] then 0
    else
      var key := order[|order| - 1];
      Points(rows, metric, order[..|order| - 1], keep, bucket)
      + if key !in keep && Direct(rows, metric, {key}, bucket).Some? then 1 else 0
  }

  function PlusExcess(v: Option<real>, excess: real): Option<real> {
    if v.None? then None else Some(v.value + excess)
  }

  lemma StepAdds(metric: Metric, a: Option<Entry>, b: Option<Entry>, excess: real)
    requires a.None? ==> excess == 0.0
    ensures Plus(PlusExcess(Value(metric, a), excess), Value(metric, b)) ==
      PlusExcess(Value(metric, Merge(a, b)), excess + StepExcess(metric, a, b))
    ensures Merge(a, b).None? ==> excess + StepExcess(metric, a, b) == 0.0
  {
    hide Reduce;
    if a.Some? && b.Some? {
      ReduceParts(metric, a.value);
      ReduceParts(metric, b.value);
      ReduceParts(metric, Merge(a, b).value);
    }
  }

  lemma ReduceParts(metric: Metric, e: Entry)
    ensures Reduce(Count, e) == e.count as real && Reduce(Sum, e) == e.sum && Reduce(Min, e) == e.min
      && Reduce(Max, e) == e.max
  {
  }

  lemma DroppedOnce(order: seq<string>, keep: set<string>)
    requires Distinct(order) && order != []
    ensures var before, key := order[..|order| - 1], order[|order| - 1];
            key !in Elems(before) && Elems(order) - keep
              == if key in keep then Elems(before) - keep else (Elems(before) - keep) + {key}
  {
    var n := |order| - 1;
    assert order[..n + 1] == order;
    ElemsSnoc(order, n);
  }

  // The points added up are the metric of the rows and the excess.
  lemma {:induction false} DroppedExcess(t: Table<Table<real>>, order: seq<string>, keep: set<string>, rows: seq<Row>,
                                         metric: Metric, bucket: string)
    requires Distinct(order) && forall key :: At(t, key, bucket) == Value(metric, Direct(rows, metric, {key}, bucket))
    ensures var direct, excess := Direct(rows, metric, Elems(order) - keep, bucket), Excess(rows, metric, order, keep, bucket);
            SumDropped(t, order, keep, bucket) == PlusExcess(Value(metric, direct), excess)
              && (direct.None? ==> excess == 0.0)
  {
    hide Direct, At, Plus, PlusExcess, Value, Merge, StepExcess;
    if order == [] {
      assert Elems(order) - keep == {};
      DirectOfNone(rows, metric, bucket);
      NothingPlus(metric);
    } else {
      var n := |order| - 1;
      var key, dropped := order[n], Elems(order[..n]) - keep;
      DroppedExcess(t, order[..n], keep, rows, metric, bucket);
      DroppedOnce(order, keep);
      if key !in keep {
        DirectUnion(rows, metric, dropped, {key}, bucket);
        StepAdds(metric, Direct(rows, metric, dropped, bucket), Direct(rows, metric, {key}, bucket),
                 Excess(rows, metric, order[..n], keep, bucket));
      }
    }
  }

  lemma NothingPlus(metric: Metric)
    ensures PlusExcess(Value(metric, None), 0.0) == None
  {
  }

  lemma MergeSome(a: Option<Entry>, b: Option<Entry>)
    ensures Merge(a, b).Some? <==> a.Some? || b.Some?
  {
  }

  lemma {:induction false} PointsExist(rows: seq<Row>, metric: Metric, order: seq<string>, keep: set<string>,
                                       bucket: string)
    requires Distinct(order)
    ensures Points(rows, metric, order, keep, bucket) >= 1 <==> Direct(rows, metric, Elems(order) - keep, bucket).Some?
  {
    hide Direct, Merge;
    if order == [] {
      assert Elems(order) - keep == {};
      DirectOfNone(rows, metric, bucket);
    } else {
      var n := |order| - 1;
      PointsExist(rows, metric, order[..n], keep, bucket);
      DroppedOnce(order, keep);
      if order[n] !in keep {
        DirectUnion(rows, metric, Elems(order[..n]) - keep, {order[n]}, bucket);
        MergeSome(Direct(rows, metric, Elems(order[..n]) - keep, bucket), Direct(rows, metric, {order[n]}, bucket));
      }
    }
  }

  // One point alone is no excess.
  lemma {:induction false} OnePointIsExact(rows: seq<Row>, metric: Metric, order: seq<string>, keep: set<string>,
                                           bucket: string)
    requires Distinct(order) && Points(rows, metric, order, keep, bucket) <= 1
    ensures Excess(rows, metric, order, keep, bucket) == 0.0
  {
    hide Direct;
    if order != [] {
      var n := |order| - 1;
      OnePointIsExact(rows, metric, order[..n], keep, bucket);
      PointsExist(rows, metric, order[..n], keep, bucket);
    }
  }

  // ---- positive values -----------------------------------------------------

  ghost predicate Positive(rows: seq<Row>, metric: Metric) {
    forall row | row in rows && ValueOf(row, metric).Some? :: ValueOf(row, metric).value > 0.0
  }

  predicate PositiveEntry(e: Entry) {
    e.sum > 0.0 && e.count >= 1 && e.min > 0.0 && e.max > 0.0
  }

  lemma {:induction false} DirectIsPositive(rows: seq<Row>, metric: Metric, keys: set<string>, bucket: string)
    requires Positive(rows, metric)
    ensures Direct(rows, metric, keys, bucket).Some? ==> PositiveEntry(Direct(rows, metric, keys, bucket).value)
  {
    if rows != [] {
      var n := |rows| - 1;
      assert rows[n] in rows && forall row | row in rows[..n] :: row in rows;
      DirectIsPositive(rows[..n], metric, keys, bucket);
    }
  }

  lemma LargerShare(sum: real, n: real, m: real)
    requires sum > 0.0 && n > 0.0 && m > n
    ensures sum / m < sum / n
  {
    var q, q' := sum / n, sum / m;
    assert q * n == sum && q' * m == sum;
    if q' >= q {
      assert q' * m >= q * m;
      assert q * m > q * n;
    }
  }

  lemma AveragesExceed(a: Entry, b: Entry)
    requires PositiveEntry(a) && PositiveEntry(b)
    ensures Reduce(Avg, Merge(Some(a), Some(b)).value) < Reduce(Avg, a) + Reduce(Avg, b)
  {
    var n, m := a.count as real, b.count as real;
    LargerShare(a.sum, n, n + m);
    LargerShare(b.sum, m, n + m);
    assert (a.sum + b.sum) / (n + m) == a.sum / (n + m) + b.sum / (n + m);
  }

  lemma StepIsPositive(metric: Metric, a: Option<Entry>, b: Option<Entry>)
    requires !Additive(metric) && (a.Some? ==> PositiveEntry(a.value)) && (b.Some? ==> PositiveEntry(b.value))
    ensures if a.Some? && b.Some? then StepExcess(metric, a, b) > 0.0 else StepExcess(metric, a, b) == 0.0
  {
    hide Reduce, Merge;
    if a.Some? && b.Some? && metric.Avg? {
      AveragesExceed(a.value, b.value);
    }
  }

  lemma {:induction false} ExcessExactly(rows: seq<Row>, metric: Metric, order: seq<string>, keep: set<string>,
                                         bucket: string)
    requires Distinct(order) && Positive(rows, metric) && !Additive(metric)
    ensures Excess(rows, metric, order, keep, bucket) >= 0.0
    ensures Excess(rows, metric, order, keep, bucket) == 0.0 <==> Points(rows, metric, order, keep, bucket) <= 1
  {
    hide Direct, StepExcess, PositiveEntry, Positive;
    if order != [] {
      var n := |order| - 1;
      var a, b := Direct(rows, metric, Elems(order[..n]) - keep, bucket), Direct(rows, metric, {order[n]}, bucket);
      ExcessExactly(rows, metric, order[..n], keep, bucket);
      PointsExist(rows, metric, order[..n], keep, bucket);
      DirectIsPositive(rows, metric, Elems(order[..n]) - keep, bucket);
      DirectIsPositive(rows, metric, {order[n]}, bucket);
      StepIsPositive(metric, a, b);
    }
  }

  // The collapsed point is the metric of the dropped rows and the excess, for
  // every metric and all values.
  lemma CollapsedPoint(series: map<string, map<string, real>>, t: Table<Table<real>>, grouped: seq<Grouped>,
                       rows: seq<Row>, metric: Metric,
                       keep: set<string>, bucket: string)
    requires Aggregates(grouped, rows, metric) && IsCollected(t, grouped) && IsCollapsed(series, t, keep)
      && t.at.Keys - keep != {}
    ensures Point(series, OTHER, bucket)
         == PlusExcess(Value(metric, Direct(rows, metric, t.at.Keys - keep, bucket)), Excess(rows, metric, t.order, keep, bucket))
  {
    hide Direct, Value, SumDropped, Excess, LastOf, At, PlusExcess, Point;
    assert Elems(t.order) == t.at.Keys;
    DroppedExcess(t, t.order, keep, rows, metric, bucket);
  }

  // For averages, minima and maxima of positive values it is the metric of the
  // dropped rows exactly when at most one dropped group has a point there; a
  // single one is exact whatever the values and the metric.
  lemma CollapsedPointExactly(series: map<string, map<string, real>>, t: Table<Table<real>>, grouped: seq<Grouped>,
                              rows: seq<Row>, metric: Metric,
                              keep: set<string>, bucket: string)
    requires Aggregates(grouped, rows, metric) && IsCollected(t, grouped) && IsCollapsed(series, t, keep)
      && t.at.Keys - keep != {}
    ensures var exact := Point(series, OTHER, bucket) == Value(metric, Direct(rows, metric, t.at.Keys - keep, bucket));
            var points := Points(rows, metric, t.order, keep, bucket);
            && (points <= 1 ==> exact)
            && (!Additive(metric) && Positive(rows, metric) ==> (exact <==> points <= 1))
  {
    hide Direct, Value, Excess, IsCollapsed, LastOf, Points, Point, Positive;
    CollapsedPoint(series, t, grouped, rows, metric, keep, bucket);
    assert Elems(t.order) == t.at.Keys;
    PointsExist(rows, metric, t.order, keep, bucket);
    if Points(rows, metric, t.order, keep, bucket) <= 1 {
      OnePointIsExact(rows, metric, t.order, keep, bucket);
    }
    if !Additive(metric) && Positive(rows, metric) {
      ExcessExactly(rows, metric, t.order, keep, bucket);
      ValueOfSome(metric, Direct(rows, metric, t.at.Keys - keep, bucket));
    }
  }

  lemma ValueOfSome(metric: Metric, e: Option<Entry>)
    ensures Value(metric, e).Some? <==> e.Some?
  {
  }
}
