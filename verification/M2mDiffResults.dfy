// What `applyDiff` leaves in the junction.
module M2mDiffResults {
  import opened Prelude
  import opened Junction
  import opened M2mDiff

  predicate IsOf(r: Row, parent: string, key: string) {
    Show(r.local) == parent && Show(r.foreign) == key
  }

  function Count(rows: seq<Row>, parent: string, key: string): nat {
    if rows == [] then 0
    else Count(rows[..|rows| - 1], parent, key) + if IsOf(rows[|rows| - 1], parent, key) then 1 else 0
  }

  function OfOthers(rows: seq<Row>, parent: string): seq<Row> {
    if rows == [] then []
    else OfOthers(rows[..|rows| - 1], parent) + if Show(rows[|rows| - 1].local) == parent then [] else [rows[|rows| - 1]]
  }

  // The last row of a key.
  function LastRow(rows: seq<Row>, parent: string, key: string): Option<Row> {
    if rows == [] then None
    else if IsOf(rows[|rows| - 1], parent, key) then Some(rows[|rows| - 1])
    else LastRow(rows[..|rows| - 1], parent, key)
  }

  // What the last item that gives `field` for `id` gives it.
  function LastValue(items: seq<Item>, id: string, field: string): Option<string> {
    if items == [] then None
    else
      var item := items[|items| - 1];
      if item.id == id && field in item.extras then Some(item.extras[field]) else LastValue(items[..|items| - 1], id, field)
  }

  lemma {:induction false} MergedIsLastValue(items: seq<Item>, id: string, field: string)
    requires id in Merged(items).at
    ensures LastValue(items, id, field)
         == if field in Merged(items).at[id] then Some(Merged(items).at[id][field]) else None
  {
    if items != [] {
      var n := |items| - 1;
      if id in Merged(items[..n]).at {
        MergedIsLastValue(items[..n], id, field);
      } else {
        NoValue(items[..n], id, field);
      }
    }
  }

  lemma {:induction false} NoValue(items: seq<Item>, id: string, field: string)
    requires id !in Merged(items).at
    ensures LastValue(items, id, field).None?
  {
    if items != [] {
      NoValue(items[..|items| - 1], id, field);
    }
  }

  // ---- concatenations ------------------------------------------------------

  lemma {:induction false} CountConcat(a: seq<Row>, b: seq<Row>, parent: string, key: string)
    ensures Count(a + b, parent, key) == Count(a, parent, key) + Count(b, parent, key)
  {
    hide IsOf;
    if b == [] {
      assert a + b == a;
    } else {
      var n := |b| - 1;
      CountConcat(a, b[..n], parent, key);
      assert (a + b)[..|a| + n] == a + b[..n];
    }
  }

  lemma OfOthersConcat(a: seq<Row>, b: seq<Row>, parent: string)
    requires |b| <= 1
    ensures OfOthers(a + b, parent) == OfOthers(a, parent) + OfOthers(b, parent)
  {
    hide Show;
    if b == [] {
      assert a + b == a;
    } else {
      assert (a + b)[..|a|] == a && b[..0] == [];
    }
  }

  lemma {:induction false} OfOthersNone(a: seq<Row>, b: seq<Row>, parent: string)
    requires forall r | r in b :: Show(r.local) == parent
    ensures OfOthers(a + b, parent) == OfOthers(a, parent)
  {
    hide Show;
    if b == [] {
      assert a + b == a;
    } else {
      var n := |b| - 1;
      OfOthersNone(a, b[..n], parent);
      assert (a + b)[..|a| + n] == a + b[..n];
    }
  }

  lemma {:induction false} LastRowConcat(a: seq<Row>, b: seq<Row>, parent: string, key: string)
    ensures LastRow(a + b, parent, key)
      == if LastRow(b, parent, key).Some? then LastRow(b, parent, key) else LastRow(a, parent, key)
  {
    hide IsOf;
    if b == [] {
      assert a + b == a;
    } else {
      var n := |b| - 1;
      LastRowConcat(a, b[..n], parent, key);
      assert (a + b)[..|a| + n] == a + b[..n];
    }
  }

  // ---- the table of existing rows ------------------------------------------

  lemma {:induction false} ExistingIsLastRow(rows: seq<Row>, parent: string, key: string)
    ensures var existing := Existing(RowsOf(rows, parent)).at;
            LastRow(rows, parent, key) == if key in existing then Some(existing[key]) else None
  {
    if rows != [] {
      var n := |rows| - 1;
      ExistingIsLastRow(rows[..n], parent, key);
      var before := RowsOf(rows[..n], parent);
      assert (before + [rows[n]])[..|before|] == before;
    }
  }

  lemma {:induction false} LastRowCounts(rows: seq<Row>, parent: string, key: string)
    ensures LastRow(rows, parent, key).Some? <==> Count(rows, parent, key) >= 1
    ensures LastRow(rows, parent, key).Some? ==>
      LastRow(rows, parent, key).value in rows && IsOf(LastRow(rows, parent, key).value, parent, key)
  {
    hide IsOf;
    if rows != [] {
      LastRowCounts(rows[..|rows| - 1], parent, key);
    }
  }

  // ---- the survivors -------------------------------------------------------

  lemma {:induction false} SurvivorsCount(rows: seq<Row>, parent: string, existing: map<string, Row>,
                                          doomed: set<string>, patches: map<string, Extras>, key: string)
    requires UniqueIds(rows)
    ensures Count(Survivors(rows, parent, existing, doomed, patches), parent, key)
         == Count(rows, parent, key)
            - if key in doomed && exists r :: r in rows && IsOf(r, parent, key) && Chosen(r, parent, existing) then 1 else 0
  {
    hide Settled, Chosen;
    if rows != [] {
      var n := |rows| - 1;
      var r, s := rows[n], Settled(rows[n], parent, existing, doomed, patches);
      SurvivorsCount(rows[..n], parent, existing, doomed, patches, key);
      SettledKeepsKeys(r, parent, existing, doomed, patches, key);
      CountConcat(Survivors(rows[..n], parent, existing, doomed, patches), s, parent, key);
      assert s != [] ==> s[..0] == [];
      assert forall x :: x in rows <==> x in rows[..n] || x == r by { assert rows == rows[..n] + [r]; }
      if IsOf(r, parent, key) && Chosen(r, parent, existing) {
        OneChosen(rows, parent, existing, key);
      }
    }
  }

  lemma OneChosen(rows: seq<Row>, parent: string, existing: map<string, Row>, key: string)
    requires UniqueIds(rows) && rows != []
    requires IsOf(rows[|rows| - 1], parent, key) && Chosen(rows[|rows| - 1], parent, existing)
    ensures !exists r :: r in rows[..|rows| - 1] && IsOf(r, parent, key) && Chosen(r, parent, existing)
  {
  }

  lemma {:induction false} SurvivorsOfOthers(rows: seq<Row>, parent: string, existing: map<string, Row>,
                                             doomed: set<string>, patches: map<string, Extras>)
    ensures OfOthers(Survivors(rows, parent, existing, doomed, patches), parent) == OfOthers(rows, parent)
  {
    if rows != [] {
      var n := |rows| - 1;
      var r, s := rows[n], Settled(rows[n], parent, existing, doomed, patches);
      SurvivorsOfOthers(rows[..n], parent, existing, doomed, patches);
      SettledKeepsKeys(r, parent, existing, doomed, patches, Show(r.foreign));
      OfOthersConcat(Survivors(rows[..n], parent, existing, doomed, patches), s, parent);
      SettledOfOthers(r, parent, existing, doomed, patches);
    }
  }

  lemma SettledOfOthers(r: Row, parent: string, existing: map<string, Row>, doomed: set<string>,
                        patches: map<string, Extras>)
    ensures OfOthers(Settled(r, parent, existing, doomed, patches), parent)
      == if Show(r.local) == parent then [] else [r]
  {
  }

  lemma {:induction false} SurvivorsLast(rows: seq<Row>, parent: string, existing: map<string, Row>,
                                         doomed: set<string>, patches: map<string, Extras>, key: string)
    requires key !in doomed
    ensures var last := LastRow(Survivors(rows, parent, existing, doomed, patches), parent, key);
            match LastRow(rows, parent, key)
            case None => last.None?
            case Some(r) =>
              && Settled(r, parent, existing, doomed, patches) != []
              && last == Some(Settled(r, parent, existing, doomed, patches)[0])
  {
    hide Settled, Chosen;
    if rows != [] {
      var n := |rows| - 1;
      var r, s := rows[n], Settled(rows[n], parent, existing, doomed, patches);
      SurvivorsLast(rows[..n], parent, existing, doomed, patches, key);
      SettledKeepsKeys(r, parent, existing, doomed, patches, key);
      LastRowConcat(Survivors(rows[..n], parent, existing, doomed, patches), s, parent, key);
      assert s != [] ==> s[..0] == [];
    }
  }

  // ---- the created rows ----------------------------------------------------

  lemma {:induction false} CreatedRows(order: seq<string>, merged: map<string, Extras>, existing: map<string, Row>,
                                       parent: string, fields: set<string>, nextId: nat)
    requires forall id | id in order :: id in merged
    ensures forall r | r in Created(order, merged, existing, parent, fields, nextId) ::
              r.local == Text(parent) && Show(r.foreign) in order && r.extras == Picked(merged[Show(r.foreign)], fields)
  {
    hide Picked;
    if order != [] {
      var n := |order| - 1;
      CreatedRows(order[..n], merged, existing, parent, fields, nextId);
      assert order == order[..n] + [order[n]];
    }
  }

  lemma {:induction false} CreatedCount(order: seq<string>, merged: map<string, Extras>, existing: map<string, Row>,
                                        parent: string, fields: set<string>, nextId: nat, key: string)
    requires forall id | id in order :: id in merged
    requires forall i, j | 0 <= i < j < |order| :: order[i] != order[j]
    ensures Count(Created(order, merged, existing, parent, fields, nextId), parent, key)
      == if key in order && key !in existing then 1 else 0
  {
    hide Picked;
    if order != [] {
      var n := |order| - 1;
      var before := Created(order[..n], merged, existing, parent, fields, nextId);
      CreatedCount(order[..n], merged, existing, parent, fields, nextId, key);
      assert key in order <==> key in order[..n] || key == order[n] by { assert order == order[..n] + [order[n]]; }
      if order[n] !in existing {
        var r := Row(nextId + |before|, Text(parent), Text(order[n]), Picked(merged[order[n]], fields));
        assert (before + [r])[..|before|] == before;
      }
    }
  }

  // ---- the results ---------------------------------------------------------

  lemma ChosenExists(rows: seq<Row>, parent: string, key: string)
    ensures var existing := Existing(RowsOf(rows, parent)).at;
            && (key in existing <==> Count(rows, parent, key) >= 1)
            && (key in existing ==> existing[key] in rows && IsOf(existing[key], parent, key) && Chosen(existing[key], parent, existing))
  {
  }

  lemma DiffCounts(rows: seq<Row>, nextId: nat, parent: string, fields: set<string>, incoming: seq<Item>, key: string)
    requires UniqueIds(rows)
    ensures var before := Count(rows, parent, key);
            Count(Diff(rows, nextId, parent, fields, incoming), parent, key)
            == if key in Ids(incoming) then (if before == 0 then 1 else before) else if before == 0 then 0 else before - 1
  {
    hide Survivors, Created, Chosen, IsOf, UniqueIds, Existing, RowsOf, Patches;
    var existing, merged := Existing(RowsOf(rows, parent)).at, Merged(incoming);
    MergedKeys(incoming);
    var doomed, patches := existing.Keys - merged.at.Keys, Patches(merged.at, existing, merged.at.Keys, fields);
    ChosenExists(rows, parent, key);
    SurvivorsCount(rows, parent, existing, doomed, patches, key);
    CreatedCount(merged.order, merged.at, existing, parent, fields, nextId, key);
    CountConcat(Survivors(rows, parent, existing, doomed, patches),
                Created(merged.order, merged.at, existing, parent, fields, nextId), parent, key);
  }

  ghost predicate NoDuplicates(rows: seq<Row>, parent: string) {
    forall key :: Count(rows, parent, key) <= 1
  }

  // Afterwards the parent has one row for each submitted identifier and no
  // others: exactly when it had no two rows with one foreign key before.
  lemma ExactWithoutDuplicates(rows: seq<Row>, nextId: nat, parent: string, fields: set<string>, incoming: seq<Item>)
    requires UniqueIds(rows)
    ensures var after := Diff(rows, nextId, parent, fields, incoming);
            (forall key :: Count(after, parent, key) == if key in Ids(incoming) then 1 else 0) <==>
              NoDuplicates(rows, parent)
  {
    hide Diff, Count, UniqueIds;
    var after := Diff(rows, nextId, parent, fields, incoming);
    forall key
      ensures Count(after, parent, key) == (if key in Ids(incoming) then 1 else 0) <==> Count(rows, parent, key) <= 1
    {
      DiffCounts(rows, nextId, parent, fields, incoming, key);
    }
  }

  // The rows of other parents stand as they were, in their order.
  lemma OthersUntouched(rows: seq<Row>, nextId: nat, parent: string, fields: set<string>, incoming: seq<Item>)
    ensures OfOthers(Diff(rows, nextId, parent, fields, incoming), parent) == OfOthers(rows, parent)
  {
    hide Survivors, Created, Existing, RowsOf, Patches;
    var existing, merged := Existing(RowsOf(rows, parent)).at, Merged(incoming);
    MergedKeys(incoming);
    var doomed, patches := existing.Keys - merged.at.Keys, Patches(merged.at, existing, merged.at.Keys, fields);
    SurvivorsOfOthers(rows, parent, existing, doomed, patches);
    CreatedRows(merged.order, merged.at, existing, parent, fields, nextId);
    OfOthersNone(Survivors(rows, parent, existing, doomed, patches),
                 Created(merged.order, merged.at, existing, parent, fields, nextId), parent);
  }

  // A submitted key that had a row keeps it, with its identifier, its key
  // columns and its other columns, and takes the extra fields that were
  // submitted; one that had none gets a row with just those.
  lemma SubmittedRow(rows: seq<Row>, nextId: nat, parent: string, fields: set<string>, incoming: seq<Item>, key: string)
    requires UniqueIds(rows) && IdsBelow(rows, nextId) && key in Ids(incoming)
    ensures key in Merged(incoming).at
    ensures var after, picked := LastRow(Diff(rows, nextId, parent, fields, incoming), parent, key), Picked(Merged(incoming).at[key], fields);
            match LastRow(rows, parent, key)
            case Some(r) => after == Some(r.(extras := r.extras + picked))
            case None => after.Some? && after.value.id >= nextId && after.value.extras == picked
  {
    hide Survivors, Created, Existing, RowsOf, UniqueIds;
    var existing, merged := Existing(RowsOf(rows, parent)).at, Merged(incoming);
    MergedKeys(incoming);
    var doomed, patches := existing.Keys - merged.at.Keys, Patches(merged.at, existing, merged.at.Keys, fields);
    var created := Created(merged.order, merged.at, existing, parent, fields, nextId);
    ExistingIsLastRow(rows, parent, key);
    ChosenExists(rows, parent, key);
    SurvivorsLast(rows, parent, existing, doomed, patches, key);
    LastRowConcat(Survivors(rows, parent, existing, doomed, patches), created, parent, key);
    CreatedCount(merged.order, merged.at, existing, parent, fields, nextId, key);
    CreatedRows(merged.order, merged.at, existing, parent, fields, nextId);
    CreatedIds(merged.order, merged.at, existing, parent, fields, nextId);
    LastRowCounts(created, parent, key);
  }

  // The value of a row's column.
  function Column(row: Option<Row>, field: string): Option<string> {
    if row.Some? && field in row.value.extras then Some(row.value.extras[field]) else None
  }

  // Column by column: a listed one has the last value that was submitted for it,
  // where there is one; every other has its old value, and none on a new row.
  lemma SubmittedFields(rows: seq<Row>, nextId: nat, parent: string, fields: set<string>, incoming: seq<Item>,
                        key: string, field: string)
    requires UniqueIds(rows) && IdsBelow(rows, nextId) && key in Ids(incoming)
    ensures var after := LastRow(Diff(rows, nextId, parent, fields, incoming), parent, key);
            var given := LastValue(incoming, key, field);
            && after.Some? && IsOf(after.value, parent, key)
            && Column(after, field) == if field in fields && given.Some? then given else Column(LastRow(rows, parent, key), field)
  {
    hide Diff, LastRow, UniqueIds, IdsBelow, Ids, Merged, LastValue;
    SubmittedRow(rows, nextId, parent, fields, incoming, key);
    MergedIsLastValue(incoming, key, field);
    LastRowCounts(Diff(rows, nextId, parent, fields, incoming), parent, key);
  }

  lemma {:induction false} NothingSettled(rows: seq<Row>, parent: string, existing: map<string, Row>,
                                          doomed: set<string>, patches: map<string, Extras>)
    requires forall r | r in rows :: Settled(r, parent, existing, doomed, patches) == [r]
    ensures Survivors(rows, parent, existing, doomed, patches) == rows
  {
    hide Settled;
    if rows != [] {
      NothingSettled(rows[..|rows| - 1], parent, existing, doomed, patches);
    }
  }

  lemma {:induction false} NothingCreated(order: seq<string>, merged: map<string, Extras>, existing: map<string, Row>,
                                          parent: string, fields: set<string>, nextId: nat)
    requires forall id | id in order :: id in merged && id in existing
    ensures Created(order, merged, existing, parent, fields, nextId) == []
  {
    hide Picked;
    if order != [] {
      NothingCreated(order[..|order| - 1], merged, existing, parent, fields, nextId);
    }
  }

  // Rows that already hold what is submitted are left alone.
  lemma NothingToDo(rows: seq<Row>, nextId: nat, parent: string, fields: set<string>, incoming: seq<Item>)
    requires UniqueIds(rows)
    requires forall key :: key in Ids(incoming) <==> Count(rows, parent, key) >= 1
    requires forall key | key in Merged(incoming).at :: var last := LastRow(rows, parent, key);
               last.Some? && last.value.extras + Picked(Merged(incoming).at[key], fields) == last.value.extras
    ensures Diff(rows, nextId, parent, fields, incoming) == rows
  {
    hide Survivors, Created, Existing, RowsOf, Picked, Count, LastRow, IsOf;
    var existing, merged := Existing(RowsOf(rows, parent)).at, Merged(incoming);
    MergedKeys(incoming);
    forall key
      ensures key in existing <==> key in merged.at
      ensures key in existing ==> LastRow(rows, parent, key) == Some(existing[key]) && existing[key] in rows
    {
      ChosenExists(rows, parent, key);
      ExistingIsLastRow(rows, parent, key);
    }
    var doomed, patches := existing.Keys - merged.at.Keys, Patches(merged.at, existing, merged.at.Keys, fields);
    forall r | r in rows
      ensures Settled(r, parent, existing, doomed, patches) == [r]
    {
      if Chosen(r, parent, existing) {
        SameRow(rows, r, existing[Show(r.foreign)]);
      }
    }
    NothingSettled(rows, parent, existing, doomed, patches);
    NothingCreated(merged.order, merged.at, existing, parent, fields, nextId);
  }

  lemma SameRow(rows: seq<Row>, r: Row, q: Row)
    requires UniqueIds(rows) && r in rows && q in rows && r.id == q.id
    ensures r == q
  {
  }

  // The same submission again changes nothing, exactly when the parent had no
  // two rows with one foreign key that was not submitted.
  lemma SecondRunChangesNothing(rows: seq<Row>, nextId: nat, parent: string, fields: set<string>, incoming: seq<Item>,
                                nextId': nat)
    requires UniqueIds(rows) && IdsBelow(rows, nextId)
    ensures var after := Diff(rows, nextId, parent, fields, incoming);
            Diff(after, nextId', parent, fields, incoming) == after
            <==> forall key :: key !in Ids(incoming) ==> Count(rows, parent, key) <= 1
  {
    hide Diff, Count, UniqueIds, IdsBelow, Merged, Ids, LastRow, Picked;
    var after := Diff(rows, nextId, parent, fields, incoming);
    DiffIds(rows, nextId, parent, fields, incoming);
    MergedKeys(incoming);
    forall key
      ensures key in Ids(incoming) ==> Count(after, parent, key) >= 1
      ensures key !in Ids(incoming) ==>
        Count(after, parent, key) == if Count(rows, parent, key) == 0 then 0 else Count(rows, parent, key) - 1
    {
      DiffCounts(rows, nextId, parent, fields, incoming, key);
    }
    if key :| key !in Ids(incoming) && Count(rows, parent, key) > 1 {
      DiffCounts(after, nextId', parent, fields, incoming, key);
    } else {
      forall key | key in Merged(incoming).at
        ensures var last := LastRow(after, parent, key);
                last.Some? && last.value.extras + Picked(Merged(incoming).at[key], fields) == last.value.extras
      {
        SubmittedRow(rows, nextId, parent, fields, incoming, key);
      }
      NothingToDo(after, nextId', parent, fields, incoming);
    }
  }
}
