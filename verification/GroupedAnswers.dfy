// The answers of the database to the Drizzle adapter's query, and exactly when
// the adapter's reading of them is the metric of the rows behind each key.
module GroupedAnswers {
  import opened Prelude
  import opened TimeSeries
  import opened TimeSeriesResults
  import opened GroupedSeries
  import opened GroupedLimits

  // Rows and answers with the values of the grouping column themselves, which
  // `keyOf` makes into keys.
  datatype RawRow<G> = RawRow(bucket: Option<string>, group: G, value: Option<real>)
  datatype Answer<G> = Answer(bucket: Option<string>, group: G, value: Option<real>)

  function Keyed<G>(rows: seq<RawRow<G>>, keyOf: G -> string): seq<Row> {
    if rows == [] then []
    else
      var last := rows[|rows| - 1];
      Keyed(rows[..|rows| - 1], keyOf) + [Row(last.bucket, keyOf(last.group), last.value)]
  }

  function Sent<G>(answers: seq<Answer<G>>, keyOf: G -> string): seq<Grouped> {
    if answers == [] then []
    else
      var last := answers[|answers| - 1];
      Sent(answers[..|answers| - 1], keyOf) + [Grouped(last.bucket, keyOf(last.group), last.value)]
  }

  function RawValue<G>(row: RawRow<G>, metric: Metric): Option<real> {
    if metric.Count? then Some(1.0) else row.value
  }

  predicate Counts<G>(row: RawRow<G>, metric: Metric, bucket: string) {
    row.bucket == Some(bucket) && RawValue(row, metric).Some?
  }

  // The rows of one value of the grouping column in one bucket.
  ghost function DirectOf<G>(rows: seq<RawRow<G>>, metric: Metric, group: G, bucket: string): Option<Entry> {
    if rows == [] then None
    else
      var row, before := rows[|rows| - 1], DirectOf(rows[..|rows| - 1], metric, group, bucket);
      if row.group == group && Counts(row, metric, bucket) then Some(Extend(before, RawValue(row, metric).value)) else before
  }

  // One answer for each group and bucket with rows, with the metric of those.
  ghost predicate AnswersQuery<G(!new)>(answers: seq<Answer<G>>, rows: seq<RawRow<G>>, metric: Metric) {
    && (forall i | 0 <= i < |answers| && answers[i].bucket.Some? ::
          answers[i].value == Value(metric, DirectOf(rows, metric, answers[i].group, answers[i].bucket.value)))
    && (forall group, bucket | DirectOf(rows, metric, group, bucket).Some? ::
          exists i :: 0 <= i < |answers| && answers[i].group == group && answers[i].bucket == Some(bucket))
  }

  // No two groups with rows in one bucket have the same key.
  ghost predicate KeysDiffer<G(!new)>(rows: seq<RawRow<G>>, metric: Metric, keyOf: G -> string) {
    forall g, h, bucket | DirectOf(rows, metric, g, bucket).Some? && DirectOf(rows, metric, h, bucket).Some?
      && keyOf(g) == keyOf(h) :: g == h
  }

  lemma {:induction false} DirectOfExists<G>(rows: seq<RawRow<G>>, metric: Metric, group: G, bucket: string)
    ensures DirectOf(rows, metric, group, bucket).Some? <==>
      exists row :: row in rows && row.group == group && Counts(row, metric, bucket)
  {
    hide Counts, Extend;
    if rows != [] {
      var n := |rows| - 1;
      DirectOfExists(rows[..n], metric, group, bucket);
      assert forall row :: row in rows <==> row in rows[..n] || row == rows[n] by {
        assert rows == rows[..n] + [rows[n]];
      }
    }
  }

  lemma KeyedLast<G>(rows: seq<RawRow<G>>, keyOf: G -> string)
    requires rows != []
    ensures var row, keyed := rows[|rows| - 1], Keyed(rows, keyOf);
            keyed != [] && keyed[..|keyed| - 1] == Keyed(rows[..|rows| - 1], keyOf)
            && keyed[|keyed| - 1] == Row(row.bucket, keyOf(row.group), row.value)
  {
  }

  // When only one group with that key has rows in the bucket, the key stands for
  // that group.
  lemma {:induction false} KeyIsGroup<G>(rows: seq<RawRow<G>>, metric: Metric, keyOf: G -> string, group: G,
                                         bucket: string)
    requires forall row | row in rows && Counts(row, metric, bucket) && keyOf(row.group) == keyOf(group) ::
      row.group == group
    ensures Direct(Keyed(rows, keyOf), metric, {keyOf(group)}, bucket) == DirectOf(rows, metric, group, bucket)
  {
    hide Extend;
    if rows != [] {
      var n := |rows| - 1;
      assert rows[n] in rows && forall row | row in rows[..n] :: row in rows;
      KeyIsGroup(rows[..n], metric, keyOf, group, bucket);
      KeyedLast(rows, keyOf);
    }
  }

  lemma {:induction false} KeyIsNothing<G>(rows: seq<RawRow<G>>, metric: Metric, keyOf: G -> string, key: string,
                                           bucket: string)
    requires forall row | row in rows && Counts(row, metric, bucket) :: keyOf(row.group) != key
    ensures Direct(Keyed(rows, keyOf), metric, {key}, bucket) == None
  {
    hide Extend;
    if rows != [] {
      var n := |rows| - 1;
      assert rows[n] in rows && forall row | row in rows[..n] :: row in rows;
      KeyIsNothing(rows[..n], metric, keyOf, key, bucket);
      KeyedLast(rows, keyOf);
    }
  }

  predicate IsFor<G>(answer: Answer<G>, keyOf: G -> string, key: string, bucket: string) {
    keyOf(answer.group) == key && answer.bucket == Some(bucket)
  }

  // The value that is set last is that of one of the answers, if any has one.
  lemma {:induction false} LastAnswer<G>(answers: seq<Answer<G>>, keyOf: G -> string, key: string, bucket: string)
    ensures var last := LastOf(Sent(answers, keyOf), key, bucket);
            && (last.Some? ==> exists i :: 0 <= i < |answers| && IsFor(answers[i], keyOf, key, bucket) && answers[i].value == last)
            && (last.None? ==> forall i | 0 <= i < |answers| && IsFor(answers[i], keyOf, key, bucket) :: answers[i].value.None?)
  {
    if answers != [] {
      var n := |answers| - 1;
      var sent := Sent(answers[..n], keyOf);
      LastAnswer(answers[..n], keyOf, key, bucket);
      assert Sent(answers, keyOf)[..|sent|] == sent;
      assert forall i | 0 <= i < n :: answers[..n][i] == answers[i];
    }
  }

  // Then the adapter reads the metric of the rows behind every key.
  lemma DifferentKeysAggregate<G(!new)>(answers: seq<Answer<G>>, rows: seq<RawRow<G>>, metric: Metric, keyOf: G -> string)
    requires AnswersQuery(answers, rows, metric) && KeysDiffer(rows, metric, keyOf)
    ensures Aggregates(Sent(answers, keyOf), Keyed(rows, keyOf), metric)
  {
    hide Direct, DirectOf, Counts, LastOf;
    forall key, bucket
      ensures LastOf(Sent(answers, keyOf), key, bucket) ==
        Value(metric, Direct(Keyed(rows, keyOf), metric, {key}, bucket))
    {
      LastAnswer(answers, keyOf, key, bucket);
      if LastOf(Sent(answers, keyOf), key, bucket).Some? {
        var i :| 0 <= i < |answers| && keyOf(answers[i].group) == key && answers[i].bucket == Some(bucket)
              && answers[i].value == LastOf(Sent(answers, keyOf), key, bucket);
        OnlyGroup(rows, metric, keyOf, answers[i].group, bucket);
        KeyIsGroup(rows, metric, keyOf, answers[i].group, bucket);
      } else {
        forall row | row in rows && Counts(row, metric, bucket)
          ensures keyOf(row.group) != key
        {
          DirectOfExists(rows, metric, row.group, bucket);
          var i :| 0 <= i < |answers| && answers[i].group == row.group && answers[i].bucket == Some(bucket);
          ValueOfSome(metric, DirectOf(rows, metric, row.group, bucket));
        }
        KeyIsNothing(rows, metric, keyOf, key, bucket);
      }
    }
  }

  lemma OnlyGroup<G(!new)>(rows: seq<RawRow<G>>, metric: Metric, keyOf: G -> string, group: G, bucket: string)
    requires KeysDiffer(rows, metric, keyOf) && DirectOf(rows, metric, group, bucket).Some?
    ensures forall row | row in rows && Counts(row, metric, bucket) && keyOf(row.group) == keyOf(group) ::
      row.group == group
  {
    hide DirectOf, Counts;
    forall row | row in rows && Counts(row, metric, bucket) && keyOf(row.group) == keyOf(group)
      ensures row.group == group
    {
      DirectOfExists(rows, metric, row.group, bucket);
    }
  }

  // ---- colliding keys ------------------------------------------------------

  ghost predicate PositiveRaw<G>(rows: seq<RawRow<G>>, metric: Metric) {
    forall row | row in rows && RawValue(row, metric).Some? :: RawValue(row, metric).value > 0.0
  }

  function Total(metric: Metric, e: Option<Entry>): real {
    OrZero(Value(metric, e))
  }

  lemma ExtendAdds(metric: Metric, e: Option<Entry>, v: real)
    requires Additive(metric) && (metric.Count? ==> v == 1.0)
    ensures Total(metric, Some(Extend(e, v))) == Total(metric, e) + v
  {
  }

  // What the last row adds to the total of its group, and of its key.
  lemma LastAdds<G>(rows: seq<RawRow<G>>, metric: Metric, group: G, bucket: string)
    requires Additive(metric) && rows != []
    ensures var row := rows[|rows| - 1];
            Total(metric, DirectOf(rows, metric, group, bucket)) == Total(metric, DirectOf(rows[..|rows| - 1], metric, group, bucket))
              + if row.group == group && Counts(row, metric, bucket) then RawValue(row, metric).value else 0.0
  {
    hide Total, Extend;
    var n := |rows| - 1;
    if Counts(rows[n], metric, bucket) {
      ExtendAdds(metric, DirectOf(rows[..n], metric, group, bucket), RawValue(rows[n], metric).value);
    }
  }

  lemma LastAddsToKey<G>(rows: seq<RawRow<G>>, metric: Metric, keyOf: G -> string, key: string, bucket: string)
    requires Additive(metric) && rows != []
    ensures var row := rows[|rows| - 1];
            Total(metric, Direct(Keyed(rows, keyOf), metric, {key}, bucket))
            == Total(metric, Direct(Keyed(rows[..|rows| - 1], keyOf), metric, {key}, bucket))
               + if keyOf(row.group) == key && Counts(row, metric, bucket) then RawValue(row, metric).value else 0.0
  {
    hide Total, Extend, Keyed;
    var n := |rows| - 1;
    KeyedLast(rows, keyOf);
    if Counts(rows[n], metric, bucket) {
      ExtendAdds(metric, Direct(Keyed(rows[..n], keyOf), metric, {key}, bucket), RawValue(rows[n], metric).value);
    }
  }

  lemma {:induction false} TotalIsPositive<G>(rows: seq<RawRow<G>>, metric: Metric, group: G, bucket: string)
    requires Additive(metric) && PositiveRaw(rows, metric)
    ensures Total(metric, DirectOf(rows, metric, group, bucket)) >= 0.0
    ensures DirectOf(rows, metric, group, bucket).Some? ==> Total(metric, DirectOf(rows, metric, group, bucket)) > 0.0
  {
    hide Total, Extend;
    if rows != [] {
      var n := |rows| - 1;
      assert rows[n] in rows && forall row | row in rows[..n] :: row in rows;
      TotalIsPositive(rows[..n], metric, group, bucket);
      LastAdds(rows, metric, group, bucket);
    } else {
      NoTotal(metric);
    }
  }

  lemma NoTotal(metric: Metric)
    ensures Total(metric, None) == 0.0
  {
  }

  // A key stands for at least any two of its groups together.
  lemma {:induction false} KeyHoldsBoth<G>(rows: seq<RawRow<G>>, metric: Metric, keyOf: G -> string, g: G, h: G,
                                           bucket: string)
    requires Additive(metric) && PositiveRaw(rows, metric) && g != h && keyOf(g) == keyOf(h)
    ensures Total(metric, Direct(Keyed(rows, keyOf), metric, {keyOf(g)}, bucket))
         >= Total(metric, DirectOf(rows, metric, g, bucket)) + Total(metric, DirectOf(rows, metric, h, bucket))
  {
    hide Total;
    if rows != [] {
      hide Direct, DirectOf, Keyed;
      var n := |rows| - 1;
      assert rows[n] in rows && forall row | row in rows[..n] :: row in rows;
      KeyHoldsBoth(rows[..n], metric, keyOf, g, h, bucket);
      LastAdds(rows, metric, g, bucket);
      LastAdds(rows, metric, h, bucket);
      LastAddsToKey(rows, metric, keyOf, keyOf(g), bucket);
    } else {
      NoTotal(metric);
    }
  }

  // Counts, and sums of positive values, are the metric of the rows behind every
  // key exactly when no two groups with rows in one bucket have the same key.
  lemma KeysDifferExactly<G(!new)>(answers: seq<Answer<G>>, rows: seq<RawRow<G>>, metric: Metric, keyOf: G -> string)
    requires AnswersQuery(answers, rows, metric) && Additive(metric) && PositiveRaw(rows, metric)
    ensures Aggregates(Sent(answers, keyOf), Keyed(rows, keyOf), metric) <==> KeysDiffer(rows, metric, keyOf)
  {
    hide Direct, DirectOf, Counts, LastOf, AnswersQuery;
    if KeysDiffer(rows, metric, keyOf) {
      DifferentKeysAggregate(answers, rows, metric, keyOf);
    } else {
      var g, h, bucket :| DirectOf(rows, metric, g, bucket).Some? && DirectOf(rows, metric, h, bucket).Some?
        && keyOf(g) == keyOf(h) && g != h;
      CollisionLoses(answers, rows, metric, keyOf, g, h, bucket);
      assert LastOf(Sent(answers, keyOf), keyOf(g), bucket)
             != Value(metric, Direct(Keyed(rows, keyOf), metric, {keyOf(g)}, bucket));
    }
  }

  lemma CollisionLoses<G(!new)>(answers: seq<Answer<G>>, rows: seq<RawRow<G>>, metric: Metric, keyOf: G -> string, g: G, h: G, bucket: string)
    requires AnswersQuery(answers, rows, metric) && Additive(metric) && PositiveRaw(rows, metric)
    requires DirectOf(rows, metric, g, bucket).Some? && DirectOf(rows, metric, h, bucket).Some? && keyOf(g) == keyOf(h)
      && g != h
    ensures OrZero(LastOf(Sent(answers, keyOf), keyOf(g), bucket)) < Total(metric, Direct(Keyed(rows, keyOf), metric, {keyOf(g)}, bucket))
  {
    hide Direct, DirectOf, Counts, LastOf;
    LastAnswer(answers, keyOf, keyOf(g), bucket);
    KeyHoldsBoth(rows, metric, keyOf, g, h, bucket);
    TotalIsPositive(rows, metric, g, bucket);
    TotalIsPositive(rows, metric, h, bucket);
    if LastOf(Sent(answers, keyOf), keyOf(g), bucket).Some? {
      var i :| 0 <= i < |answers| && keyOf(answers[i].group) == keyOf(g) && answers[i].bucket == Some(bucket)
            && answers[i].value == LastOf(Sent(answers, keyOf), keyOf(g), bucket);
      var other := if answers[i].group == g then h else g;
      KeyHoldsBoth(rows, metric, keyOf, answers[i].group, other, bucket);
    }
  }

  // ---- no groups -----------------------------------------------------------

  // Without a step and a grouping column the query is not grouped, and has one
  // answer: the number of all rows, or the metric, which is null over none.
  function Ungrouped(rows: seq<Row>, metric: Metric, key: string, bucket: string): seq<Grouped> {
    [Grouped(Some(bucket), key, if metric.Count? then Some(|rows| as real) else Value(metric, Direct(rows, metric, {key}, bucket)))]
  }

  ghost predicate AllIn(rows: seq<Row>, key: string, bucket: string) {
    forall row | row in rows :: row.bucket == Some(bucket) && row.group == key
  }

  lemma {:induction false} CountOfAll(rows: seq<Row>, key: string, bucket: string)
    requires AllIn(rows, key, bucket)
    ensures if rows == [] then Direct(rows, Count, {key}, bucket) == None
            else Direct(rows, Count, {key}, bucket).Some? && Direct(rows, Count, {key}, bucket).value.count == |rows|
  {
    if rows != [] {
      var n := |rows| - 1;
      assert rows[n] in rows && forall row | row in rows[..n] :: row in rows;
      CountOfAll(rows[..n], key, bucket);
    }
  }

  lemma {:induction false} NothingElse(rows: seq<Row>, metric: Metric, key: string, bucket: string, key': string,
                                       bucket': string)
    requires AllIn(rows, key, bucket) && (key' != key || bucket' != bucket)
    ensures Direct(rows, metric, {key'}, bucket') == None
  {
    if rows != [] {
      var n := |rows| - 1;
      assert rows[n] in rows && forall row | row in rows[..n] :: row in rows;
      NothingElse(rows[..n], metric, key, bucket, key', bucket');
    }
  }

  // The query without groups answers the metric of the rows, except for the count
  // of no rows: that is a point here and none for the other adapter.
  lemma UngroupedExactly(rows: seq<Row>, metric: Metric, key: string, bucket: string)
    requires AllIn(rows, key, bucket)
    ensures Aggregates(Ungrouped(rows, metric, key, bucket), rows, metric) <==> !(metric.Count? && rows == [])
  {
    hide Direct;
    var grouped := Ungrouped(rows, metric, key, bucket);
    forall key', bucket'
      ensures LastOf(grouped, key', bucket') == if key' == key && bucket' == bucket then grouped[0].value else None
    {
      assert grouped[..0] == [];
    }
    if metric.Count? {
      CountOfAll(rows, key, bucket);
    }
    forall key', bucket' | key' != key || bucket' != bucket
      ensures Value(metric, Direct(rows, metric, {key'}, bucket')) == None
    {
      NothingElse(rows, metric, key, bucket, key', bucket');
    }
    assert Aggregates(grouped, rows, metric) ==>
      LastOf(grouped, key, bucket) == Value(metric, Direct(rows, metric, {key}, bucket));
  }

  // A grouped query over no rows has no point, whatever the metric.
  lemma GroupedOverNothing<G(!new)>(answers: seq<Answer<G>>, metric: Metric, keyOf: G -> string, key: string, bucket: string)
    requires AnswersQuery(answers, [], metric)
    ensures LastOf(Sent(answers, keyOf), key, bucket) == None
  {
    LastAnswer(answers, keyOf, key, bucket);
  }
}
