// The Drizzle adapter's time series: the database groups and aggregates, and the
// adapter collapses the groups beyond the top N.
module GroupedSeries {
  import opened Prelude
  import opened TopN
  import opened TimeSeries
  import opened TimeSeriesResults

  // A row of the aggregating query.
  datatype Grouped = Grouped(bucket: Option<string>, group: string, value: Option<real>)

  // The value that is set last for a group and a bucket.
  function LastOf(grouped: seq<Grouped>, key: string, bucket: string): Option<real> {
    if grouped == [] then None
    else
      var last := grouped[|grouped| - 1];
      if last.group == key && last.bucket == Some(bucket) && last.value.Some? then last.value
      else LastOf(grouped[..|grouped| - 1], key, bucket)
  }

  // What a correct database answers: the metric for each group and bucket.
  ghost predicate Aggregates(grouped: seq<Grouped>, rows: seq<Row>, metric: Metric) {
    forall key, bucket :: LastOf(grouped, key, bucket) == Value(metric, Direct(rows, metric, {key}, bucket))
  }

  ghost predicate IsCollected(t: Table<Table<real>>, grouped: seq<Grouped>) {
    Proper(t) && forall key, bucket :: At(t, key, bucket) == LastOf(grouped, key, bucket)
  }

  method Collect(grouped: seq<Grouped>) returns (t: Table<Table<real>>)
    ensures IsCollected(t, grouped) && Proper(t)
  {
    hide Ordered, At, Set;
    t := Table([], map[]);
    NothingCollected();
    var i := 0;
    while i < |grouped|
      invariant 0 <= i <= |grouped| && IsCollected(t, grouped[..i])
    {
      LastOneMore(grouped, i);
      var row := grouped[i];
      if row.value.Some? && row.bucket.Some? {
        SetProper(t, row.group, row.bucket.value, row.value.value);
        t := Set(t, row.group, row.bucket.value, row.value.value);
      }
      i := i + 1;
    }
    assert grouped[..i] == grouped;
  }

  lemma NothingCollected()
    ensures var t: Table<Table<real>> := Table([], map[]); IsCollected(t, [])
  {
  }

  lemma LastOneMore(grouped: seq<Grouped>, i: nat)
    requires i < |grouped|
    ensures forall key, bucket :: LastOf(grouped[..i + 1], key, bucket)
              == if grouped[i].group == key && grouped[i].bucket == Some(bucket) && grouped[i].value.Some? then grouped[i].value
                 else LastOf(grouped[..i], key, bucket)
  {
    var upto := grouped[..i + 1];
    assert upto[..i] == grouped[..i] && upto[|upto| - 1] == grouped[i];
    forall key, bucket
      ensures LastOf(upto, key, bucket)
           == if grouped[i].group == key && grouped[i].bucket == Some(bucket) && grouped[i].value.Some? then grouped[i].value
              else LastOf(upto[..i], key, bucket)
    {
    }
  }

  method SumValues(m: Table<real>) returns (s: real)
    requires Ordered(m)
    ensures forall b | b in m.order :: b in m.at
    ensures s == SumOver(m.order, m.at)
  {
    s := 0.0;
    var i := 0;
    while i < |m.order|
      invariant 0 <= i <= |m.order|
      invariant s == SumOver(m.order[..i], m.at)
    {
      assert m.order[..i + 1][..i] == m.order[..i];
      s := s + m.at[m.order[i]];
      i := i + 1;
    }
    assert m.order[..i] == m.order;
  }

  method SeriesTotals(t: Table<Table<real>>) returns (totals: seq<(string, real)>)
    requires Proper(t)
    ensures AreTotals(totals, t)
  {
    hide SumOver;
    totals := [];
    var i := 0;
    while i < |t.order|
      invariant 0 <= i <= |t.order| && |totals| == i
      invariant forall j | 0 <= j < i :: totals[j].0 == t.order[j] && totals[j].1 == TotalOf(t, t.order[j])
    {
      var total := SumValues(t.at[t.order[i]]);
      totals := totals + [(t.order[i], total)];
      i := i + 1;
    }
    assert Keys(totals) == t.order;
  }

  // Adding a value to what a bucket may already hold.
  function Plus(a: Option<real>, b: Option<real>): Option<real> {
    if b.None? then a else Some(OrZero(a) + b.value)
  }

  // The points of the dropped series, added up bucket by bucket.
  function SumDropped(t: Table<Table<real>>, order: seq<string>, keep: set<string>, bucket: string): Option<real> {
    if order == [] then None
    else
      var before, key := SumDropped(t, order[..|order| - 1], keep, bucket), order[|order| - 1];
      if key in keep then before else Plus(before, At(t, key, bucket))
  }

  method AddInto(other: Table<real>, inner: Table<real>) returns (added: Table<real>)
    requires Ordered(other) && Ordered(inner)
    ensures Ordered(added)
    ensures forall b :: Look(added, b) == Plus(Look(other, b), Look(inner, b))
  {
    added := other;
    var i := 0;
    while i < |inner.order|
      invariant 0 <= i <= |inner.order| && Ordered(added)
      invariant forall b :: Look(added, b) == if b in inner.order[..i] then Plus(Look(other, b), Look(inner, b)) else Look(other, b)
    {
      var bucket := inner.order[i];
      assert bucket !in inner.order[..i];
      var sum := (if bucket in added.at then added.at[bucket] else 0.0) + inner.at[bucket];
      PutOrdered(added, bucket, sum);
      added := Put(added, bucket, sum);
      i := i + 1;
    }
    assert inner.order[..i] == inner.order;
  }

  method AddDropped(t: Table<Table<real>>, keep: set<string>) returns (other: Table<real>)
    requires Proper(t)
    ensures Ordered(other) && forall b :: Look(other, b) == SumDropped(t, t.order, keep, b)
  {
    hide Plus;
    other := Table([], map[]);
    var i := 0;
    while i < |t.order|
      invariant 0 <= i <= |t.order| && Ordered(other)
      invariant forall b :: Look(other, b) == SumDropped(t, t.order[..i], keep, b)
    {
      DroppedOneMore(t, i, keep);
      var key := t.order[i];
      if key !in keep {
        other := AddInto(other, t.at[key]);
        assert forall b :: At(t, key, b) == Look(t.at[key], b);
      }
      i := i + 1;
    }
    assert t.order[..i] == t.order;
  }

  lemma DroppedOneMore(t: Table<Table<real>>, i: nat, keep: set<string>)
    requires i < |t.order|
    ensures forall b :: SumDropped(t, t.order[..i + 1], keep, b)
              == if t.order[i] in keep then SumDropped(t, t.order[..i], keep, b)
                 else Plus(SumDropped(t, t.order[..i], keep, b), At(t, t.order[i], b))
  {
    assert t.order[..i + 1][..i] == t.order[..i];
  }

  ghost predicate IsCollapsed(series: map<string, map<string, real>>, t: Table<Table<real>>, keep: set<string>) {
    && series.Keys == keep + (if t.at.Keys - keep == {} then {} else {OTHER})
    && forall key, bucket | key in series ::
         Point(series, key, bucket) == if key == OTHER && t.at.Keys - keep != {} then SumDropped(t, t.order, keep, bucket) else At(t, key, bucket)
  }

  method AssembleGrouped(t: Table<Table<real>>, keep: set<string>, other: Table<real>)
    returns (series: map<string, map<string, real>>)
    requires keep <= t.at.Keys
    ensures series.Keys == keep + if other.order == [] then {} else {OTHER}
    ensures forall key | key in series ::
      series[key] == if key == OTHER && other.order != [] then other.at else t.at[key].at
  {
    series := map key | key in t.at && key in keep :: t.at[key].at;
    assert series.Keys == keep;
    if |other.order| > 0 {
      series := series[OTHER := other.at];
    }
  }

  method RunTimeSeriesQuery(grouped: seq<Grouped>, topN: nat)
    returns (series: map<string, map<string, real>>, keep: set<string>, ghost t: Table<Table<real>>)
    ensures IsCollected(t, grouped) && Proper(t) && IsTop(keep, t, topN)
    ensures IsCollapsed(series, t, keep)
    ensures keep <= series.Keys <= keep + {OTHER}
    ensures forall key, bucket | key in keep && key != OTHER ::
      Point(series, key, bucket) == LastOf(grouped, key, bucket)
  {
    hide IsTop, TotalOf, Kept, IsCollapsed, IsCollected, Proper, SumDropped, LastOf, Point;
    var collected := Collect(grouped);
    t := collected;
    var totals := SeriesTotals(collected);
    keep := Kept(totals, topN);
    KeptIsTop(totals, t, topN);
    KeptAreKeys(keep, t, topN);
    var other := AddDropped(collected, keep);
    series := AssembleGrouped(collected, keep, other);
    AddedIsEmpty(t, keep, other);
    AssembledIsCollapsed(t, keep, other, series);
    KeptPoints(series, t, keep, grouped);
  }

  // A kept series has the values that the database gave for it.
  lemma KeptPoints(series: map<string, map<string, real>>, t: Table<Table<real>>, keep: set<string>,
                   grouped: seq<Grouped>)
    requires IsCollected(t, grouped) && IsCollapsed(series, t, keep)
    ensures keep <= series.Keys <= keep + {OTHER}
    ensures forall key, bucket | key in keep && key != OTHER ::
      Point(series, key, bucket) == LastOf(grouped, key, bucket)
  {
  }

  lemma KeptAreKeys(keep: set<string>, t: Table<Table<real>>, topN: nat)
    requires Proper(t) && IsTop(keep, t, topN)
    ensures keep <= t.at.Keys
  {
  }

  lemma {:induction false} DroppedSome(t: Table<Table<real>>, order: seq<string>, keep: set<string>, bucket: string)
    ensures SumDropped(t, order, keep, bucket).Some? <==>
      exists key :: key in order && key !in keep && At(t, key, bucket).Some?
  {
    hide At;
    if order != [] {
      var n := |order| - 1;
      DroppedSome(t, order[..n], keep, bucket);
      assert forall key :: key in order <==> key in order[..n] || key == order[n] by {
        assert order == order[..n] + [order[n]];
      }
    }
  }

  lemma AddedIsEmpty(t: Table<Table<real>>, keep: set<string>, other: Table<real>)
    requires Proper(t) && Ordered(other) && forall b :: Look(other, b) == SumDropped(t, t.order, keep, b)
    ensures other.order == [] <==> t.at.Keys - keep == {}
  {
    hide SumDropped;
    if key :| key in t.at.Keys - keep {
      var b := t.at[key].order[0];
      assert At(t, key, b).Some?;
      DroppedSome(t, t.order, keep, b);
      assert Look(other, b).Some?;
      assert b in other.order;
    }
    if other.order != [] {
      assert Look(other, other.order[0]).Some?;
      DroppedSome(t, t.order, keep, other.order[0]);
      var key :| key in t.order && key !in keep && At(t, key, other.order[0]).Some?;
      assert key in t.at.Keys - keep;
    }
  }

  lemma AssembledIsCollapsed(t: Table<Table<real>>, keep: set<string>, other: Table<real>,
                             series: map<string, map<string, real>>)
    requires keep <= t.at.Keys && forall b :: Look(other, b) == SumDropped(t, t.order, keep, b)
    requires other.order == [] <==> t.at.Keys - keep == {}
    requires series.Keys == keep + if other.order == [] then {} else {OTHER}
    requires forall key | key in series ::
      series[key] == if key == OTHER && other.order != [] then other.at else t.at[key].at
    ensures IsCollapsed(series, t, keep)
  {
  }

  // ---- the two adapters ----------------------------------------------------

  lemma PlusIsMerge(metric: Metric, a: Option<Entry>, b: Option<Entry>)
    requires Additive(metric)
    ensures Plus(Value(metric, a), Value(metric, b)) == Value(metric, Merge(a, b))
  {
  }

  // For counts and sums, adding up the points of some groups is the metric of
  // all their rows.
  lemma {:induction false} DroppedIsDirect(t: Table<Table<real>>, order: seq<string>, keep: set<string>,
                                           rows: seq<Row>, metric: Metric, bucket: string)
    requires Additive(metric) && Distinct(order)
    requires forall key :: At(t, key, bucket) == Value(metric, Direct(rows, metric, {key}, bucket))
    ensures SumDropped(t, order, keep, bucket) == Value(metric, Direct(rows, metric, Elems(order) - keep, bucket))
  {
    hide Direct, At, Plus, Value, Merge;
    if order == [] {
      assert Elems(order) - keep == {};
      DirectOfNone(rows, metric, bucket);
      ValueOfNone(metric);
    } else {
      var n := |order| - 1;
      DroppedIsDirect(t, order[..n], keep, rows, metric, bucket);
      ElemsSnoc(order, n);
      assert order[..n + 1] == order;
      if order[n] in keep {
        assert Elems(order) - keep == Elems(order[..n]) - keep;
      } else {
        assert Elems(order) - keep == (Elems(order[..n]) - keep) + {order[n]};
        DirectUnion(rows, metric, Elems(order[..n]) - keep, {order[n]}, bucket);
        PlusIsMerge(metric, Direct(rows, metric, Elems(order[..n]) - keep, bucket),
                    Direct(rows, metric, {order[n]}, bucket));
      }
    }
  }

  // The kept groups are the same for every metric, and so are their points.
  lemma AdaptersKeepTheSame(rows: seq<Row>, grouped: seq<Grouped>, metric: Metric, topN: nat,
                            t: Table<Table<Entry>>, u: Table<Table<real>>, keep: set<string>, keep': set<string>)
    requires Aggregates(grouped, rows, metric) && IsFold(t, rows, metric) && IsCollected(u, grouped)
    requires Proper(Scalars(t, metric)) && IsTop(keep, Scalars(t, metric), topN) && NoTie(keep, Scalars(t, metric))
    requires Proper(u) && IsTop(keep', u, topN)
    ensures keep == keep' && u.at.Keys == t.at.Keys == Groups(rows, metric)
    ensures forall key, bucket :: At(u, key, bucket) == Value(metric, Direct(rows, metric, {key}, bucket))
  {
    hide Direct, Value, TotalOf, Scalars, IsTop, Proper, Groups, LastOf, At;
    ScalarEntries(t, rows, metric);
    SameEntriesSameTotals(Scalars(t, metric), u);
    TopIsUnique(keep, keep', Scalars(t, metric), u, topN);
    FoldedGroups(t, rows, metric);
    ScalarKeys(t, metric);
  }

  // For counts and sums, when no kept series ties with a dropped one, both
  // adapters give the same series and points.
  lemma AdaptersAgree(rows: seq<Row>, grouped: seq<Grouped>, metric: Metric, topN: nat,
                      t: Table<Table<Entry>>, u: Table<Table<real>>, keep: set<string>, keep': set<string>,
                      series: map<string, map<string, real>>, series': map<string, map<string, real>>)
    requires Additive(metric)
    requires Aggregates(grouped, rows, metric) && IsFold(t, rows, metric) && IsCollected(u, grouped)
    requires Proper(Scalars(t, metric)) && IsTop(keep, Scalars(t, metric), topN) && NoTie(keep, Scalars(t, metric))
    requires Proper(u) && IsTop(keep', u, topN)
    requires IsResult(series, rows, metric, keep) && IsCollapsed(series', u, keep')
    ensures series == series'
  {
    hide Direct, Value, Scalars, IsTop, Groups, LastOf, At, SumDropped, Point;
    AdaptersKeepTheSame(rows, grouped, metric, topN, t, u, keep, keep');
    forall key, bucket | key in series'
      ensures Point(series', key, bucket) ==
        Value(metric, Direct(rows, metric, Behind(key, Groups(rows, metric), keep), bucket))
    {
      assert Elems(u.order) == u.at.Keys;
      DroppedIsDirect(u, u.order, keep, rows, metric, bucket);
    }
    ResultIsUnique(series, series', rows, rows, metric, keep);
  }
}
