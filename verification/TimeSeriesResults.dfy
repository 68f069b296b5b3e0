// What the collapsed series keep of the rows.
module TimeSeriesResults {
  import opened Prelude
  import opened TopN
  import opened TimeSeries

  // ---- independence of the order of rows -----------------------------------

  // Tables with the same entries have the same totals.
  lemma SameEntriesSameTotals(t: Table<Table<real>>, t': Table<Table<real>>)
    requires Proper(t) && Proper(t') && forall key, bucket :: At(t, key, bucket) == At(t', key, bucket)
    ensures t.at.Keys == t'.at.Keys && |t.order| == |t'.order|
    ensures forall key | key in t.at :: key in t'.at && TotalOf(t, key) == TotalOf(t', key)
  {
    hide TotalOf;
    forall key
      ensures key in t.at <==> key in t'.at
    {
      if key in t.at {
        assert At(t, key, t.at[key].order[0]).Some?;
      }
      if key in t'.at {
        assert At(t', key, t'.at[key].order[0]).Some?;
      }
    }
    SameKeysSameCount(t.order, t'.order);
    forall key | key in t.at
      ensures TotalOf(t, key) == TotalOf(t', key)
    {
      SameInner(t.at[key], t'.at[key], t, t', key);
    }
  }

  lemma SameKeysSameCount(a: seq<string>, b: seq<string>)
    requires Distinct(a) && Distinct(b) && forall k :: k in a <==> k in b
    ensures |a| == |b|
  {
    DistinctCount(a);
    DistinctCount(b);
    assert Elems(a) == Elems(b);
  }

  lemma SameInner(u: Table<real>, u': Table<real>, t: Table<Table<real>>, t': Table<Table<real>>, key: string)
    requires Proper(t) && Proper(t') && key in t.at && key in t'.at && u == t.at[key] && u' == t'.at[key]
    requires forall bucket :: At(t, key, bucket) == At(t', key, bucket)
    ensures TotalOf(t, key) == TotalOf(t', key)
  {
    forall b
      ensures Look(u, b) == Look(u', b)
    {
      assert At(t, key, b) == At(t', key, b);
    }
    assert forall b :: b in u.at <==> Look(u, b).Some?;
    assert forall b :: b in u'.at <==> Look(u', b).Some?;
    assert forall b | b in u.at :: u.at[b] == Look(u, b).value;
    assert u.at == u'.at;
    assert Elems(u.order) == Elems(u'.order);
    SumOfPermuted(u.order, u'.order, u.at);
  }

  lemma ScalarEntries(t: Table<Table<Entry>>, rows: seq<Row>, metric: Metric)
    requires IsFold(t, rows, metric)
    ensures Proper(Scalars(t, metric))
    ensures forall key, bucket ::
      At(Scalars(t, metric), key, bucket) == Value(metric, Direct(rows, metric, {key}, bucket))
  {
    hide Direct, Reduce;
    ScalarsProper(t, metric);
    forall key, bucket
      ensures At(Scalars(t, metric), key, bucket) == Value(metric, At(t, key, bucket))
    {
    }
  }

  // The rows and the kept groups determine the result.
  lemma ResultIsUnique(series: map<string, map<string, real>>, series': map<string, map<string, real>>, rows: seq<Row>,
                       rows': seq<Row>, metric: Metric, keep: set<string>)
    requires IsResult(series, rows, metric, keep) && IsResult(series', rows', metric, keep)
    requires Groups(rows, metric) == Groups(rows', metric)
    requires forall keys, bucket :: Direct(rows, metric, keys, bucket) == Direct(rows', metric, keys, bucket)
    ensures series == series'
  {
    hide Direct, Reduce, Groups, Behind;
    forall key | key in series
      ensures series[key] == series'[key]
    {
      forall bucket
        ensures Point(series, key, bucket) == Point(series', key, bucket)
      {
      }
      assert forall b :: b in series[key] <==> Point(series, key, b).Some?;
      assert forall b :: b in series'[key] <==> Point(series', key, b).Some?;
      assert forall b | b in series[key] :: series[key][b] == Point(series, key, b).value;
    }
  }

  // When no kept series ties with a dropped one, fetching the rows in another
  // order gives the same result.
  lemma OrderOfRowsDoesNotMatter(rows: seq<Row>, rows': seq<Row>, metric: Metric, topN: nat,
                                 t: Table<Table<Entry>>, t': Table<Table<Entry>>, keep: set<string>, keep': set<string>,
                                 series: map<string, map<string, real>>, series': map<string, map<string, real>>)
    requires multiset(rows) == multiset(rows')
    requires IsFold(t, rows, metric) && IsFold(t', rows', metric)
    requires Proper(Scalars(t, metric)) && IsTop(keep, Scalars(t, metric), topN) && IsResult(series, rows, metric, keep)
    requires Proper(Scalars(t', metric)) && IsTop(keep', Scalars(t', metric), topN)
      && IsResult(series', rows', metric, keep')
    requires NoTie(keep, Scalars(t, metric))
    ensures keep == keep' && series == series'
  {
    hide Direct, Reduce, IsResult, TotalOf, Scalars, IsTop, Proper, Groups;
    forall keys, bucket
      ensures Direct(rows, metric, keys, bucket) == Direct(rows', metric, keys, bucket)
    {
      DirectOfPermuted(rows, rows', metric, keys, bucket);
    }
    ScalarEntries(t, rows, metric);
    ScalarEntries(t', rows', metric);
    SameEntriesSameTotals(Scalars(t, metric), Scalars(t', metric));
    TopIsUnique(keep, keep', Scalars(t, metric), Scalars(t', metric), topN);
    FoldedGroups(t, rows, metric);
    FoldedGroups(t', rows', metric);
    ScalarKeys(t, metric);
    ScalarKeys(t', metric);
    ResultIsUnique(series, series', rows, rows', metric, keep);
  }

  // A result that drops nothing does not depend on the order of the rows at all.
  lemma OrderDoesNotMatterUntruncated(rows: seq<Row>, rows': seq<Row>, metric: Metric, topN: nat,
                                      t: Table<Table<Entry>>, t': Table<Table<Entry>>, keep: set<string>, keep': set<string>,
                                      series: map<string, map<string, real>>, series': map<string, map<string, real>>)
    requires multiset(rows) == multiset(rows') && |t.order| <= topN
    requires IsFold(t, rows, metric) && IsFold(t', rows', metric)
    requires Proper(Scalars(t, metric)) && IsTop(keep, Scalars(t, metric), topN) && IsResult(series, rows, metric, keep)
    requires Proper(Scalars(t', metric)) && IsTop(keep', Scalars(t', metric), topN)
      && IsResult(series', rows', metric, keep')
    ensures keep == keep' && series == series'
  {
    hide IsFold, IsTop, IsResult;
    AllFit(keep, Scalars(t, metric), topN);
    OrderOfRowsDoesNotMatter(rows, rows', metric, topN, t, t', keep, keep', series, series');
  }

  lemma ScalarKeys(t: Table<Table<Entry>>, metric: Metric)
    ensures Scalars(t, metric).at.Keys == t.at.Keys
  {
  }

  // ---- what a point is -----------------------------------------------------

  // The values of the rows of these groups in a bucket, where they have one; a count
  // takes every row.
  function Values(rows: seq<Row>, metric: Metric, keys: set<string>, bucket: string): seq<real> {
    if rows == [] then []
    else
      var row, before := rows[|rows| - 1], Values(rows[..|rows| - 1], metric, keys, bucket);
      if row.bucket != Some(bucket) || row.group !in keys then before
      else if metric == Count then before + [1.0]
      else if row.value.Some? then before + [row.value.value]
      else before
  }

  function SumOfAll(values: seq<real>): real {
    if values == [] then 0.0 else SumOfAll(values[..|values| - 1]) + values[|values| - 1]
  }

  // The point of a metric over these values: how many there are, their sum, that
  // divided by how many, or the one that none is below or above.
  ghost predicate IsMetric(point: real, values: seq<real>, metric: Metric) {
    match metric
    case Count => point == |values| as real
    case Sum => point == SumOfAll(values)
    case Avg => point * |values| as real == SumOfAll(values)
    case Min => point in values && forall v | v in values :: point <= v
    case Max => point in values && forall v | v in values :: v <= point
  }

  ghost predicate Describes(e: Entry, values: seq<real>) {
    && e.count == |values| && e.sum == SumOfAll(values) && e.min in values && e.max in values
    && forall v | v in values :: e.min <= v <= e.max
  }

  lemma ExtendDescribes(e: Option<Entry>, values: seq<real>, v: real)
    requires if e.Some? then Describes(e.value, values) else values == []
    ensures Describes(Extend(e, v), values + [v])
  {
    assert (values + [v])[..|values|] == values;
  }

  lemma {:induction false} EntryMeans(rows: seq<Row>, metric: Metric, keys: set<string>, bucket: string)
    ensures var values, e := Values(rows, metric, keys, bucket), Direct(rows, metric, keys, bucket);
            && (e.Some? <==> values != [])
            && (e.Some? ==> Describes(e.value, values))
  {
    hide Describes, Extend;
    if rows != [] {
      var n := |rows| - 1;
      var before, row := Values(rows[..n], metric, keys, bucket), rows[n];
      EntryMeans(rows[..n], metric, keys, bucket);
      if Falls(row, metric, keys, bucket) {
        ExtendDescribes(Direct(rows[..n], metric, keys, bucket), before, ValueOf(row, metric).value);
        assert Values(rows, metric, keys, bucket) == before + [ValueOf(row, metric).value];
      } else {
        assert Values(rows, metric, keys, bucket) == before;
      }
    }
  }

  // A point is there when there are values, and is their metric.
  lemma PointMeans(rows: seq<Row>, metric: Metric, keys: set<string>, bucket: string)
    ensures var values, point := Values(rows, metric, keys, bucket), Value(metric, Direct(rows, metric, keys, bucket));
            (point.Some? <==> values != []) && (point.Some? ==> IsMetric(point.value, values, metric))
  {
    hide Values, Direct, SumOfAll;
    EntryMeans(rows, metric, keys, bucket);
  }

  // ---- conservation --------------------------------------------------------

  predicate Additive(metric: Metric) {
    metric.Count? || metric.Sum?
  }

  function OrZero(v: Option<real>): real {
    if v.Some? then v.value else 0.0
  }

  function Amount(rows: seq<Row>, metric: Metric, keys: set<string>, bucket: string): real {
    OrZero(Value(metric, Direct(rows, metric, keys, bucket)))
  }

  lemma MergeAdds(metric: Metric, a: Option<Entry>, b: Option<Entry>)
    requires Additive(metric)
    ensures OrZero(Value(metric, Merge(a, b))) == OrZero(Value(metric, a)) + OrZero(Value(metric, b))
  {
  }

  lemma AmountOfUnion(rows: seq<Row>, metric: Metric, a: set<string>, b: set<string>, bucket: string)
    requires Additive(metric) && a !! b
    ensures Amount(rows, metric, a + b, bucket) == Amount(rows, metric, a, bucket) + Amount(rows, metric, b, bucket)
  {
    hide Direct, Merge, Value, OrZero;
    DirectUnion(rows, metric, a, b, bucket);
    MergeAdds(metric, Direct(rows, metric, a, bucket), Direct(rows, metric, b, bucket));
  }

  // One bucket over all series of the result, listed in any order.
  function SumOfPoints(listing: seq<string>, series: map<string, map<string, real>>, bucket: string): real {
    if listing == [] then 0.0
    else SumOfPoints(listing[..|listing| - 1], series, bucket) + OrZero(Point(series, listing[|listing| - 1], bucket))
  }

  function AllBehind(listing: seq<string>, groups: set<string>, keep: set<string>): set<string> {
    if listing == [] then {}
    else AllBehind(listing[..|listing| - 1], groups, keep) + Behind(listing[|listing| - 1], groups, keep)
  }

  lemma {:induction false} AllBehindHas(listing: seq<string>, groups: set<string>, keep: set<string>, k: string)
    ensures k in AllBehind(listing, groups, keep) <==> exists key :: key in listing && k in Behind(key, groups, keep)
  {
    hide Behind;
    if listing != [] {
      var n := |listing| - 1;
      AllBehindHas(listing[..n], groups, keep, k);
      assert forall key :: key in listing <==> key in listing[..n] || key == listing[n] by {
        assert listing == listing[..n] + [listing[n]];
      }
    }
  }

  lemma {:induction false} PointsAreAmounts(listing: seq<string>, series: map<string, map<string, real>>,
                                            rows: seq<Row>, metric: Metric, keep: set<string>, bucket: string)
    requires Additive(metric) && IsResult(series, rows, metric, keep)
    requires Distinct(listing) && forall key | key in listing :: key in series
    ensures SumOfPoints(listing, series, bucket) ==
      Amount(rows, metric, AllBehind(listing, Groups(rows, metric), keep), bucket)
  {
    hide Direct, Groups, Value, IsResult;
    var groups := Groups(rows, metric);
    if listing == [] {
      DirectOfNone(rows, metric, bucket);
      assert Value(metric, None).None? by { ValueOfNone(metric); }
    } else {
      var n := |listing| - 1;
      assert forall key | key in listing[..n] :: key in listing;
      PointsAreAmounts(listing[..n], series, rows, metric, keep, bucket);
      var before, last := AllBehind(listing[..n], groups, keep), Behind(listing[n], groups, keep);
      assert listing[n] in series;
      assert Point(series, listing[n], bucket) == Value(metric, Direct(rows, metric, last, bucket)) by {
        PointIs(series, rows, metric, keep, listing[n], bucket);
      }
      assert before !! last by {
        forall k | k in last
          ensures k !in before
        {
          AllBehindHas(listing[..n], groups, keep, k);
          forall key | key in listing[..n]
            ensures k !in Behind(key, groups, keep)
          {
            SeriesKeys(series, rows, metric, keep, key);
            SeriesKeys(series, rows, metric, keep, listing[n]);
          }
        }
      }
      AmountOfUnion(rows, metric, before, last, bucket);
    }
  }

  lemma ValueOfNone(metric: Metric)
    ensures Value(metric, None).None?
  {
  }

  lemma PointIs(series: map<string, map<string, real>>, rows: seq<Row>, metric: Metric, keep: set<string>, key: string,
                bucket: string)
    requires IsResult(series, rows, metric, keep) && key in series
    ensures Point(series, key, bucket) ==
      Value(metric, Direct(rows, metric, Behind(key, Groups(rows, metric), keep), bucket))
  {
  }

  lemma SeriesKeys(series: map<string, map<string, real>>, rows: seq<Row>, metric: Metric, keep: set<string>,
                   key: string)
    requires IsResult(series, rows, metric, keep) && key in series
    ensures key in keep || (key == OTHER && Groups(rows, metric) - keep != {})
  {
  }

  // What the result loses: the series of a kept group that is called like the
  // series of the dropped ones.
  function Lost(rows: seq<Row>, metric: Metric, keep: set<string>, bucket: string): real {
    if OTHER in keep && Groups(rows, metric) - keep != {} then Amount(rows, metric, {OTHER}, bucket) else 0.0
  }

  // Counts and sums are conserved over all series, but for that.
  lemma SeriesConserve(listing: seq<string>, series: map<string, map<string, real>>, rows: seq<Row>, metric: Metric,
                       keep: set<string>, bucket: string)
    requires Additive(metric) && IsResult(series, rows, metric, keep) && keep <= Groups(rows, metric)
    requires Distinct(listing) && Elems(listing) == series.Keys
    ensures SumOfPoints(listing, series, bucket) + Lost(rows, metric, keep, bucket) ==
      Amount(rows, metric, Groups(rows, metric), bucket)
  {
    hide Direct, Groups, Value, OrZero, Amount;
    var groups := Groups(rows, metric);
    assert forall key :: key in listing <==> key in Elems(listing);
    PointsAreAmounts(listing, series, rows, metric, keep, bucket);
    var behind := AllBehind(listing, groups, keep);
    var lost := if OTHER in keep && groups - keep != {} then {OTHER} else {};
    forall k
      ensures k in behind <==> k in groups && k !in lost
    {
      AllBehindHas(listing, groups, keep, k);
      if k in groups && k !in lost {
        var key := if k in keep then k else OTHER;
        assert key in listing && k in Behind(key, groups, keep);
      }
    }
    assert groups == behind + lost;
    AmountOfUnion(rows, metric, behind, lost, bucket);
    if lost == {} {
      AmountOfNone(rows, metric, bucket);
    }
  }

  lemma AmountOfNone(rows: seq<Row>, metric: Metric, bucket: string)
    ensures Amount(rows, metric, {}, bucket) == 0.0
  {
    DirectOfNone(rows, metric, bucket);
  }
}
