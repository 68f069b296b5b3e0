// Time series of a metric: rows are bucketed, grouped, and the groups beyond the
// top N collapsed into one series. This is the Prisma adapter's `runTimeSeries`.
module TimeSeries {
  import opened Prelude
  import opened TopN

  datatype Metric = Count | Sum | Avg | Min | Max

  // A fetched row: its bucket, unless its date is not valid, the key of its
  // group, and the value of the measured field, unless that is null.
  datatype Row = Row(bucket: Option<string>, group: string, value: Option<real>)

  datatype Entry = Entry(sum: real, count: nat, min: real, max: real)

  const OTHER := "__other__"

  function ValueOf(row: Row, metric: Metric): Option<real> {
    if metric.Count? then Some(1.0) else row.value
  }

  function Reduce(metric: Metric, e: Entry): real {
    match metric
    case Count => e.count as real
    case Sum => e.sum
    case Avg => if e.count == 0 then 0.0 else e.sum / e.count as real
    case Min => e.min
    case Max => e.max
  }

  // ---- the metric, directly ------------------------------------------------

  predicate Falls(row: Row, metric: Metric, keys: set<string>, bucket: string) {
    row.bucket == Some(bucket) && row.group in keys && ValueOf(row, metric).Some?
  }

  function Extend(e: Option<Entry>, v: real): Entry {
    if e.None? then Entry(v, 1, v, v)
    else Entry(e.value.sum + v, e.value.count + 1, if v < e.value.min then v else e.value.min, if v > e.value.max then v else e.value.max)
  }

  // All rows of some groups that fall into one bucket.
  function Direct(rows: seq<Row>, metric: Metric, keys: set<string>, bucket: string): Option<Entry> {
    if rows == [] then None
    else
      var row, before := rows[|rows| - 1], Direct(rows[..|rows| - 1], metric, keys, bucket);
      if Falls(row, metric, keys, bucket) then Some(Extend(before, ValueOf(row, metric).value)) else before
  }

  function Merge(a: Option<Entry>, b: Option<Entry>): Option<Entry> {
    if a.None? then b
    else if b.None? then a
    else Some(Entry(a.value.sum + b.value.sum, a.value.count + b.value.count,
                    if b.value.min < a.value.min then b.value.min else a.value.min,
                    if b.value.max > a.value.max then b.value.max else a.value.max))
  }

  lemma MergeExtends(a: Option<Entry>, b: Option<Entry>, v: real)
    ensures Merge(Some(Extend(a, v)), b) == Some(Extend(Merge(a, b), v)) == Merge(a, Some(Extend(b, v)))
  {
  }

  // Two disjoint sets of groups together.
  lemma {:induction false} DirectUnion(rows: seq<Row>, metric: Metric, a: set<string>, b: set<string>, bucket: string)
    requires a !! b
    ensures Direct(rows, metric, a + b, bucket) ==
      Merge(Direct(rows, metric, a, bucket), Direct(rows, metric, b, bucket))
  {
    hide Extend, Merge;
    if rows == [] {
      MergeNone();
    } else {
      var n := |rows| - 1;
      DirectUnion(rows[..n], metric, a, b, bucket);
      if Falls(rows[n], metric, a + b, bucket) {
        MergeExtends(Direct(rows[..n], metric, a, bucket), Direct(rows[..n], metric, b, bucket),
                     ValueOf(rows[n], metric).value);
      }
    }
  }

  lemma MergeNone()
    ensures Merge(None, None) == None
  {
  }

  lemma {:induction false} DirectOfNone(rows: seq<Row>, metric: Metric, bucket: string)
    ensures Direct(rows, metric, {}, bucket) == None
  {
    if rows != [] {
      DirectOfNone(rows[..|rows| - 1], metric, bucket);
    }
  }

  // ---- the order of the rows -----------------------------------------------

  lemma {:induction false} DirectConcat(a: seq<Row>, b: seq<Row>, metric: Metric, keys: set<string>, bucket: string)
    ensures Direct(a + b, metric, keys, bucket) ==
      Merge(Direct(a, metric, keys, bucket), Direct(b, metric, keys, bucket))
  {
    hide Extend, Falls;
    if b == [] {
      assert a + b == a;
    } else {
      hide Merge;
      var n := |b| - 1;
      DirectConcat(a, b[..n], metric, keys, bucket);
      assert (a + b)[..|a| + n] == a + b[..n];
      if Falls(b[n], metric, keys, bucket) {
        FallsHasValue(b[n], metric, keys, bucket);
        MergeExtends(Direct(a, metric, keys, bucket), Direct(b[..n], metric, keys, bucket),
                     ValueOf(b[n], metric).value);
      }
    }
  }

  lemma FallsHasValue(row: Row, metric: Metric, keys: set<string>, bucket: string)
    requires Falls(row, metric, keys, bucket)
    ensures ValueOf(row, metric).Some?
  {
  }

  lemma MergeMoves(a: Option<Entry>, x: Option<Entry>, b: Option<Entry>)
    ensures Merge(Merge(a, x), b) == Merge(Merge(a, b), x)
  {
  }

  // The metric does not depend on the order of the rows.
  lemma {:induction false} DirectOfPermuted(rows: seq<Row>, rows': seq<Row>, metric: Metric, keys: set<string>,
                                            bucket: string)
    requires multiset(rows) == multiset(rows')
    ensures Direct(rows, metric, keys, bucket) == Direct(rows', metric, keys, bucket)
    decreases |rows|
  {
    hide Direct, Merge;
    if rows == [] {
      assert |multiset(rows')| == 0;
      assert rows' == [];
    } else {
      var n := |rows| - 1;
      var i := PlaceOf(rows', rows, rows[n]);
      var p, x, q := rows'[..i], [rows[n]], rows'[i + 1..];
      assert rows == rows[..n] + x;
      assert rows' == p + x + q;
      WithoutOne(rows[..n], p, x, q);
      DirectOfPermuted(rows[..n], p + q, metric, keys, bucket);
      DirectConcat(rows[..n], x, metric, keys, bucket);
      DirectConcat(p + x, q, metric, keys, bucket);
      DirectConcat(p, x, metric, keys, bucket);
      DirectConcat(p, q, metric, keys, bucket);
      MergeMoves(Direct(p, metric, keys, bucket), Direct(x, metric, keys, bucket), Direct(q, metric, keys, bucket));
    }
  }

  lemma WithoutOne<T>(a: seq<T>, p: seq<T>, x: seq<T>, q: seq<T>)
    requires multiset(a + x) == multiset(p + x + q)
    ensures multiset(a) == multiset(p + q)
  {
    assert multiset(a) + multiset(x) == multiset(p + q) + multiset(x);
    assert multiset(a) == multiset(a) + multiset(x) - multiset(x);
  }

  lemma PlaceOf<T>(s: seq<T>, of: seq<T>, x: T) returns (i: nat)
    requires multiset(s) == multiset(of) && x in of
    ensures i < |s| && s[i] == x
  {
    assert x in multiset(of);
    i :| i < |s| && s[i] == x;
  }

  // ---- the fold ------------------------------------------------------------

  function At<V>(t: Table<Table<V>>, key: string, bucket: string): Option<V> {
    if key in t.at && bucket in t.at[key].at then Some(t.at[key].at[bucket]) else None
  }

  function Cell<V>(t: Table<Table<V>>, key: string): Table<V> {
    if key in t.at then t.at[key] else Table([], map[])
  }

  function Set<V>(t: Table<Table<V>>, key: string, bucket: string, value: V): Table<Table<V>> {
    Put(t, key, Put(Cell(t, key), bucket, value))
  }

  lemma SetProper<V>(t: Table<Table<V>>, key: string, bucket: string, value: V)
    requires Proper(t)
    ensures Proper(Set(t, key, bucket, value))
    ensures forall k, b ::
      At(Set(t, key, bucket, value), k, b) == if k == key && b == bucket then Some(value) else At(t, k, b)
  {
    hide Ordered;
    EmptyOrdered<V>();
    PutOrdered(Cell(t, key), bucket, value);
    PutOrdered(t, key, Put(Cell(t, key), bucket, value));
    PutNotEmpty(Cell(t, key), bucket, value);
  }

  lemma PutNotEmpty<V>(t: Table<V>, key: string, value: V)
    requires Ordered(t)
    ensures Put(t, key, value).order != []
  {
  }

  ghost predicate IsFold(t: Table<Table<Entry>>, rows: seq<Row>, metric: Metric) {
    Proper(t) && forall key, bucket :: At(t, key, bucket) == Direct(rows, metric, {key}, bucket)
  }

  method Fold(rows: seq<Row>, metric: Metric) returns (t: Table<Table<Entry>>)
    ensures IsFold(t, rows, metric)
  {
    hide Ordered, At, Set, Extend;
    t := Table([], map[]);
    NothingYet(metric);
    var i := 0;
    while i < |rows|
      invariant 0 <= i <= |rows|
      invariant Proper(t) && forall key, bucket :: At(t, key, bucket) == Direct(rows[..i], metric, {key}, bucket)
    {
      DirectOneMore(rows, i, metric);
      var row := rows[i];
      if row.bucket.Some? && ValueOf(row, metric).Some? {
        var bucket, value := row.bucket.value, ValueOf(row, metric).value;
        var entry := Extend(At(t, row.group, bucket), value);
        SetProper(t, row.group, bucket, entry);
        t := Set(t, row.group, bucket, entry);
      }
      i := i + 1;
    }
    assert rows[..i] == rows;
  }

  lemma NothingYet(metric: Metric)
    ensures var t: Table<Table<Entry>> := Table([], map[]);
            Proper(t) && forall key, bucket :: At(t, key, bucket) == Direct([], metric, {key}, bucket)
  {
  }

  lemma DirectOneMore(rows: seq<Row>, i: nat, metric: Metric)
    requires i < |rows|
    ensures forall keys, bucket :: Direct(rows[..i + 1], metric, keys, bucket)
              == if Falls(rows[i], metric, keys, bucket) then Some(Extend(Direct(rows[..i], metric, keys, bucket), ValueOf(rows[i], metric).value))
                 else Direct(rows[..i], metric, keys, bucket)
  {
    assert rows[..i + 1][..i] == rows[..i];
  }

  // The groups with a row that counts.
  function Groups(rows: seq<Row>, metric: Metric): set<string> {
    set row | row in rows && row.bucket.Some? && ValueOf(row, metric).Some? :: row.group
  }

  lemma {:induction false} DirectExists(rows: seq<Row>, metric: Metric, keys: set<string>, bucket: string)
    ensures Direct(rows, metric, keys, bucket).Some? <==> exists row :: row in rows && Falls(row, metric, keys, bucket)
  {
    hide Falls, Extend;
    if rows != [] {
      var n := |rows| - 1;
      DirectExists(rows[..n], metric, keys, bucket);
      assert forall row :: row in rows <==> row in rows[..n] || row == rows[n] by {
        assert rows == rows[..n] + [rows[n]];
      }
    }
  }

  lemma FoldedGroups(t: Table<Table<Entry>>, rows: seq<Row>, metric: Metric)
    requires IsFold(t, rows, metric)
    ensures t.at.Keys == Groups(rows, metric)
  {
    hide Direct;
    forall key
      ensures key in t.at <==> key in Groups(rows, metric)
    {
      if key in t.at {
        var bucket := t.at[key].order[0];
        assert At(t, key, bucket).Some?;
        DirectExists(rows, metric, {key}, bucket);
      }
      if key in Groups(rows, metric) {
        var row :| row in rows && row.bucket.Some? && ValueOf(row, metric).Some? && row.group == key;
        DirectExists(rows, metric, {key}, row.bucket.value);
        assert Falls(row, metric, {key}, row.bucket.value);
        assert At(t, key, row.bucket.value).Some?;
      }
    }
  }

  // ---- collapsing ----------------------------------------------------------

  function Scalar(inner: Table<Entry>, metric: Metric): Table<real> {
    Table(inner.order, map b | b in inner.at :: Reduce(metric, inner.at[b]))
  }

  function Scalars(t: Table<Table<Entry>>, metric: Metric): Table<Table<real>> {
    Table(t.order, map key | key in t.at :: Scalar(t.at[key], metric))
  }

  lemma ScalarsProper(t: Table<Table<Entry>>, metric: Metric)
    requires Proper(t)
    ensures Proper(Scalars(t, metric))
  {
  }

  method Total(inner: Table<Entry>, metric: Metric) returns (total: real)
    requires Ordered(inner)
    ensures forall b | b in Scalar(inner, metric).order :: b in Scalar(inner, metric).at
    ensures total == SumOver(Scalar(inner, metric).order, Scalar(inner, metric).at)
  {
    hide Reduce;
    total := 0.0;
    ghost var values := Scalar(inner, metric).at;
    var i := 0;
    while i < |inner.order|
      invariant 0 <= i <= |inner.order|
      invariant forall b | b in inner.order[..i] :: b in values
      invariant total == SumOver(inner.order[..i], values)
    {
      assert inner.order[..i + 1][..i] == inner.order[..i];
      total := total + Reduce(metric, inner.at[inner.order[i]]);
      i := i + 1;
    }
    assert inner.order[..i] == inner.order;
  }

  method Totals(t: Table<Table<Entry>>, metric: Metric) returns (totals: seq<(string, real)>)
    requires Proper(t)
    ensures Proper(Scalars(t, metric)) && AreTotals(totals, Scalars(t, metric))
  {
    hide Scalar, SumOver, Reduce;
    ScalarsProper(t, metric);
    totals := [];
    var i := 0;
    while i < |t.order|
      invariant 0 <= i <= |t.order| && |totals| == i
      invariant forall j | 0 <= j < i ::
        totals[j].0 == t.order[j] && totals[j].1 == TotalOf(Scalars(t, metric), t.order[j])
    {
      var total := Total(t.at[t.order[i]], metric);
      totals := totals + [(t.order[i], total)];
      i := i + 1;
    }
    assert Keys(totals) == t.order;
  }

  function Look<V>(t: Table<V>, bucket: string): Option<V> {
    if bucket in t.at then Some(t.at[bucket]) else None
  }

  // One dropped series, bucket by bucket, into the other series.
  method MergeInto(other: Table<Entry>, inner: Table<Entry>) returns (merged: Table<Entry>)
    requires Ordered(other) && Ordered(inner)
    ensures Ordered(merged)
    ensures forall b :: Look(merged, b) == Merge(Look(other, b), Look(inner, b))
  {
    hide Merge;
    merged := other;
    MergeWithNone();
    var i := 0;
    while i < |inner.order|
      invariant 0 <= i <= |inner.order| && Ordered(merged)
      invariant forall b :: Look(merged, b) == if b in inner.order[..i] then Merge(Look(other, b), Look(inner, b)) else Look(other, b)
    {
      var bucket := inner.order[i];
      assert bucket !in inner.order[..i];
      var e := Merged(Look(merged, bucket), inner.at[bucket]);
      PutOrdered(merged, bucket, e);
      merged := Put(merged, bucket, e);
      i := i + 1;
    }
    assert inner.order[..i] == inner.order;
  }

  lemma MergeWithNone()
    ensures forall a: Option<Entry> :: Merge(a, None) == a
  {
  }

  // The entry of a bucket with that of a dropped series: a copy when there was none.
  method Merged(cur: Option<Entry>, e: Entry) returns (r: Entry)
    ensures Some(r) == Merge(cur, Some(e))
  {
    if cur.None? {
      return e;
    }
    r := cur.value.(sum := cur.value.sum + e.sum, count := cur.value.count + e.count);
    if e.min < r.min {
      r := r.(min := e.min);
    }
    if e.max > r.max {
      r := r.(max := e.max);
    }
  }

  // All dropped series together: the metric of all their rows.
  method Collapse(t: Table<Table<Entry>>, keep: set<string>, ghost rows: seq<Row>, ghost metric: Metric)
    returns (other: Table<Entry>)
    requires IsFold(t, rows, metric)
    ensures Ordered(other)
    ensures forall b :: Look(other, b) == Direct(rows, metric, t.at.Keys - keep, b)
  {
    hide Direct, Merge;
    other := Table([], map[]);
    ghost var dropped: set<string> := {};
    forall b
      ensures Look(other, b) == Direct(rows, metric, {}, b)
    {
      DirectOfNone(rows, metric, b);
    }
    var i := 0;
    while i < |t.order|
      invariant 0 <= i <= |t.order| && Ordered(other)
      invariant forall k :: k in dropped <==> k in t.order[..i] && k !in keep
      invariant forall b :: Look(other, b) == Direct(rows, metric, dropped, b)
    {
      var key := t.order[i];
      if key !in keep {
        assert key !in t.order[..i];
        other := MergeInto(other, t.at[key]);
        forall b
          ensures Look(other, b) == Direct(rows, metric, dropped + {key}, b)
        {
          assert At(t, key, b) == Look(t.at[key], b);
          DirectUnion(rows, metric, dropped, {key}, b);
        }
        dropped := dropped + {key};
      }
      i := i + 1;
    }
    assert t.order[..i] == t.order;
    assert dropped == t.at.Keys - keep;
  }

  // ---- the result ----------------------------------------------------------

  function Value(metric: Metric, e: Option<Entry>): Option<real> {
    if e.None? then None else Some(Reduce(metric, e.value))
  }

  function Point(series: map<string, map<string, real>>, key: string, bucket: string): Option<real> {
    if key in series && bucket in series[key] then Some(series[key][bucket]) else None
  }

  // The groups whose rows a series of the result stands for.
  function Behind(key: string, groups: set<string>, keep: set<string>): set<string> {
    if key == OTHER && groups - keep != {} then groups - keep else {key}
  }

  // One series for each kept group and one for all others together, if there are
  // any; each point is the metric of the rows themselves.
  ghost predicate IsResult(series: map<string, map<string, real>>, rows: seq<Row>, metric: Metric, keep: set<string>) {
    var groups := Groups(rows, metric);
    && series.Keys == keep + (if groups - keep == {} then {} else {OTHER})
    && forall key, bucket | key in series ::
         Point(series, key, bucket) == Value(metric, Direct(rows, metric, Behind(key, groups, keep), bucket))
  }

  // What is left of the series, with the other series set beside them.
  method Assemble(t: Table<Table<Entry>>, keep: set<string>, other: Table<Entry>, metric: Metric)
    returns (series: map<string, map<string, real>>)
    requires keep <= t.at.Keys
    ensures series.Keys == keep + if other.order == [] then {} else {OTHER}
    ensures forall key | key in series ::
      series[key] == if key == OTHER && other.order != [] then Scalar(other, metric).at else Scalar(t.at[key], metric).at
  {
    hide Scalar;
    series := map key | key in t.at && key in keep :: Scalar(t.at[key], metric).at;
    assert series.Keys == keep;
    if |other.order| > 0 {
      series := series[OTHER := Scalar(other, metric).at];
    }
  }

  method RunTimeSeries(rows: seq<Row>, metric: Metric, topN: nat)
    returns (series: map<string, map<string, real>>, keep: set<string>, ghost t: Table<Table<Entry>>)
    ensures IsFold(t, rows, metric) && Proper(Scalars(t, metric)) && IsTop(keep, Scalars(t, metric), topN)
    ensures IsResult(series, rows, metric, keep)
  {
    hide Direct, Reduce, Groups, IsTop, TotalOf, Kept, IsResult, Scalar, Behind, Scalars;
    var folded := Fold(rows, metric);
    t := folded;
    var totals := Totals(folded, metric);
    keep := Kept(totals, topN);
    KeptIsTop(totals, Scalars(t, metric), topN);
    var other := Collapse(folded, keep, rows, metric);
    FoldedGroups(t, rows, metric);
    KeptAreGroups(keep, t, metric, topN);
    OtherIsEmpty(t, keep, other, rows, metric);
    series := Assemble(folded, keep, other, metric);
    AssembledIsResult(t, keep, other, rows, metric, series);
  }

  lemma AssembledIsResult(t: Table<Table<Entry>>, keep: set<string>, other: Table<Entry>, rows: seq<Row>,
                          metric: Metric, series: map<string, map<string, real>>)
    requires IsFold(t, rows, metric) && Ordered(other) && keep <= t.at.Keys == Groups(rows, metric)
    requires forall b :: Look(other, b) == Direct(rows, metric, t.at.Keys - keep, b)
    requires other.order == [] <==> t.at.Keys - keep == {}
    requires series.Keys == keep + if other.order == [] then {} else {OTHER}
    requires forall key | key in series ::
      series[key] == if key == OTHER && other.order != [] then Scalar(other, metric).at else Scalar(t.at[key], metric).at
    ensures IsResult(series, rows, metric, keep)
  {
    hide Direct, Reduce, Groups, Ordered;
    forall key, bucket | key in series
      ensures Point(series, key, bucket) ==
        Value(metric, Direct(rows, metric, Behind(key, Groups(rows, metric), keep), bucket))
    {
      if key == OTHER && other.order != [] {
        assert Point(series, key, bucket) == Value(metric, Look(other, bucket));
      } else {
        assert Point(series, key, bucket) == Value(metric, At(t, key, bucket));
      }
    }
  }

  lemma KeptAreGroups(keep: set<string>, t: Table<Table<Entry>>, metric: Metric, topN: nat)
    requires Proper(Scalars(t, metric)) && IsTop(keep, Scalars(t, metric), topN)
    ensures keep <= t.at.Keys
  {
  }

  // The other series is empty just when no group is dropped.
  lemma OtherIsEmpty(t: Table<Table<Entry>>, keep: set<string>, other: Table<Entry>, rows: seq<Row>, metric: Metric)
    requires IsFold(t, rows, metric) && Ordered(other)
    requires forall b :: Look(other, b) == Direct(rows, metric, t.at.Keys - keep, b)
    ensures other.order == [] <==> t.at.Keys - keep == {}
  {
    hide Direct;
    if key :| key in t.at.Keys - keep {
      var b := t.at[key].order[0];
      assert At(t, key, b).Some?;
      DirectExists(rows, metric, {key}, b);
      DirectExists(rows, metric, t.at.Keys - keep, b);
      assert Look(other, b).Some?;
      assert b in other.order;
    }
    if other.order != [] {
      assert Look(other, other.order[0]).Some?;
      DirectOfNone(rows, metric, other.order[0]);
    }
  }
}
