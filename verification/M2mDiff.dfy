// `applyDiff`: brings the junction rows of one parent in line with a submitted
// list of items.
module M2mDiff {
  import opened Prelude
  import opened Junction

  datatype Item = Item(id: string, extras: Extras)

  // The last row for each foreign key.
  function Existing(rows: seq<Row>): Table<Row> {
    if rows == [] then Table([], map[])
    else Put(Existing(rows[..|rows| - 1]), Show(rows[|rows| - 1].foreign), rows[|rows| - 1])
  }

  // The items with one identifier merged from left to right.
  function Merged(items: seq<Item>): Table<Extras> {
    if items == [] then Table([], map[])
    else
      var before, item := Merged(items[..|items| - 1]), items[|items| - 1];
      Put(before, item.id, if item.id in before.at then before.at[item.id] + item.extras else item.extras)
  }

  function Ids(items: seq<Item>): set<string> {
    set item | item in items :: item.id
  }

  function Picked(extras: Extras, fields: set<string>): Extras {
    map f | f in extras && f in fields :: extras[f]
  }

  // The row that stands for its foreign key.
  predicate Chosen(r: Row, parent: string, existing: map<string, Row>) {
    Show(r.local) == parent && Show(r.foreign) in existing && existing[Show(r.foreign)].id == r.id
  }

  function Settled(r: Row, parent: string, existing: map<string, Row>, doomed: set<string>,
                   patches: map<string, Extras>): seq<Row> {
    var key := Show(r.foreign);
    if !Chosen(r, parent, existing) then [r]
    else if key in doomed then []
    else if key in patches then [r.(extras := r.extras + patches[key])]
    else [r]
  }

  // What becomes of the rows there are.
  function Survivors(rows: seq<Row>, parent: string, existing: map<string, Row>, doomed: set<string>,
                     patches: map<string, Extras>): seq<Row> {
    if rows == [] then []
    else
      Survivors(rows[..|rows| - 1], parent, existing, doomed, patches)
      + Settled(rows[|rows| - 1], parent, existing, doomed, patches)
  }

  // A row for each identifier in `order` that has none.
  function Created(order: seq<string>, merged: map<string, Extras>, existing: map<string, Row>, parent: string,
                   fields: set<string>, nextId: nat): seq<Row>
    requires forall id | id in order :: id in merged
  {
    if order == [] then []
    else
      var before, id := Created(order[..|order| - 1], merged, existing, parent, fields, nextId), order[|order| - 1];
      if id in existing then before
      else before + [Row(nextId + |before|, Text(parent), Text(id), Picked(merged[id], fields))]
  }

  function Patches(merged: map<string, Extras>, existing: map<string, Row>, ids: set<string>,
                   fields: set<string>): map<string, Extras> {
    map id | id in merged && id in existing && id in ids :: Picked(merged[id], fields)
  }

  function Diff(rows: seq<Row>, nextId: nat, parent: string, fields: set<string>, incoming: seq<Item>): seq<Row> {
    var existing := Existing(RowsOf(rows, parent)).at;
    var merged := Merged(incoming);
    MergedKeys(incoming);
    Survivors(rows, parent, existing, existing.Keys - merged.at.Keys, Patches(merged.at, existing, merged.at.Keys, fields))
    + Created(merged.order, merged.at, existing, parent, fields, nextId)
  }

  // The identifier that the next row would get.
  function NextId(rows: seq<Row>, nextId: nat, parent: string, fields: set<string>, incoming: seq<Item>): nat {
    var existing := Existing(RowsOf(rows, parent)).at;
    var merged := Merged(incoming);
    MergedKeys(incoming);
    nextId + |Created(merged.order, merged.at, existing, parent, fields, nextId)|
  }

  lemma {:induction false} MergedKeys(items: seq<Item>)
    ensures Ordered(Merged(items)) && Merged(items).at.Keys == Ids(items)
  {
    hide Ordered;
    if items != [] {
      var n := |items| - 1;
      MergedKeys(items[..n]);
      assert items == items[..n] + [items[n]];
      assert Ids(items) == Ids(items[..n]) + {items[n].id};
      var before := Merged(items[..n]);
      PutOrdered(before, items[n].id, if items[n].id in before.at then before.at[items[n].id] + items[n].extras else items[n].extras);
    } else {
      assert Ordered(Merged(items)) by { EmptyOrdered<Extras>(); }
    }
  }

  // Each entry is a row of the parent under its own foreign key, and the last one.
  ghost predicate Indexes(existing: map<string, Row>, rows: seq<Row>) {
    && (forall k | k in existing :: existing[k] in rows && Show(existing[k].foreign) == k)
    && (forall r | r in rows :: Show(r.foreign) in existing)
  }

  lemma {:induction false} ExistingIndexes(rows: seq<Row>)
    ensures Indexes(Existing(rows).at, rows) && Ordered(Existing(rows))
  {
    hide Ordered;
    if rows != [] {
      var n := |rows| - 1;
      ExistingIndexes(rows[..n]);
      PutOrdered(Existing(rows[..n]), Show(rows[n].foreign), rows[n]);
      assert rows == rows[..n] + [rows[n]];
    } else {
      EmptyOrdered<Row>();
    }
  }

  // ---- the loops -----------------------------------------------------------

  // No other row has the identifier of an entry.
  ghost predicate Identified(rows: seq<Row>, parent: string, e: Row) {
    Show(e.local) == parent && forall r | r in rows && r.id == e.id :: r == e
  }

  lemma WithoutConcat(a: seq<Row>, b: seq<Row>, id: nat)
    requires |b| <= 1
    ensures Without(a + b, id) == Without(a, id) + Without(b, id)
  {
    if b == [] {
      assert a + b == a;
    } else {
      assert (a + b)[..|a|] == a && b[..0] == [];
    }
  }

  lemma PatchedConcat(a: seq<Row>, b: seq<Row>, id: nat, patch: Extras)
    requires |b| <= 1
    ensures Patched(a + b, id, patch) == Patched(a, id, patch) + Patched(b, id, patch)
  {
    if b == [] {
      assert a + b == a;
    } else {
      assert (a + b)[..|a|] == a && b[..0] == [];
    }
  }

  // Deleting the row of `key` is one more doomed key.
  lemma {:induction false} DeleteOne(rows: seq<Row>, parent: string, existing: map<string, Row>, doomed: set<string>,
                                     key: string)
    requires key in existing && key !in doomed && Show(existing[key].foreign) == key
      && Identified(rows, parent, existing[key])
    ensures Without(Survivors(rows, parent, existing, doomed, map[]), existing[key].id)
         == Survivors(rows, parent, existing, doomed + {key}, map[])
  {
    hide Without, Settled;
    if rows != [] {
      var n := |rows| - 1;
      DeleteOne(rows[..n], parent, existing, doomed, key);
      SettledShort(rows[n], parent, existing, doomed, map[]);
      WithoutConcat(Survivors(rows[..n], parent, existing, doomed, map[]),
                    Settled(rows[n], parent, existing, doomed, map[]), existing[key].id);
      DeleteSettled(rows[n], parent, existing, doomed, key);
    } else {
      WithoutNothing(existing[key].id);
    }
  }

  lemma WithoutNothing(id: nat)
    ensures Without([], id) == []
  {
  }

  lemma SettledShort(r: Row, parent: string, existing: map<string, Row>, doomed: set<string>,
                     patches: map<string, Extras>)
    ensures |Settled(r, parent, existing, doomed, patches)| <= 1
  {
  }

  lemma DeleteSettled(r: Row, parent: string, existing: map<string, Row>, doomed: set<string>, key: string)
    requires key in existing && key !in doomed && Show(existing[key].foreign) == key
    requires Show(existing[key].local) == parent && (r.id == existing[key].id ==> r == existing[key])
    ensures Without(Settled(r, parent, existing, doomed, map[]), existing[key].id) ==
      Settled(r, parent, existing, doomed + {key}, map[])
  {
  }

  lemma {:induction false} PatchOne(rows: seq<Row>, parent: string, existing: map<string, Row>, doomed: set<string>,
                                    patches: map<string, Extras>, key: string, patch: Extras)
    requires key in existing && key !in doomed && key !in patches
    requires Show(existing[key].foreign) == key && Identified(rows, parent, existing[key])
    ensures Patched(Survivors(rows, parent, existing, doomed, patches), existing[key].id, patch)
         == Survivors(rows, parent, existing, doomed, patches[key := patch])
  {
    hide Patched, Settled;
    if rows != [] {
      var n := |rows| - 1;
      PatchOne(rows[..n], parent, existing, doomed, patches, key, patch);
      SettledShort(rows[n], parent, existing, doomed, patches);
      var before := Survivors(rows[..n], parent, existing, doomed, patches);
      var last := Settled(rows[n], parent, existing, doomed, patches);
      PatchedConcat(before, last, existing[key].id, patch);
      PatchSettled(rows[n], parent, existing, doomed, patches, key, patch);
    } else {
      PatchedNothing(existing[key].id, patch);
    }
  }

  lemma PatchedNothing(id: nat, patch: Extras)
    ensures Patched([], id, patch) == []
  {
  }

  lemma PatchSettled(r: Row, parent: string, existing: map<string, Row>, doomed: set<string>,
                     patches: map<string, Extras>, key: string, patch: Extras)
    requires key in existing && key !in doomed && key !in patches && Show(existing[key].foreign) == key
    requires Show(existing[key].local) == parent && (r.id == existing[key].id ==> r == existing[key])
    ensures Patched(Settled(r, parent, existing, doomed, patches), existing[key].id, patch)
         == Settled(r, parent, existing, doomed, patches[key := patch])
  {
  }

  lemma {:induction false} PatchedOthers(a: seq<Row>, b: seq<Row>, id: nat, patch: Extras)
    requires forall r | r in b :: r.id != id
    ensures Patched(a + b, id, patch) == Patched(a, id, patch) + b
  {
    if b == [] {
      assert a + b == a;
    } else {
      var n := |b| - 1;
      PatchedOthers(a, b[..n], id, patch);
      assert (a + b)[..|a| + n] == a + b[..n];
    }
  }

  lemma {:induction false} PatchedByNothing(rows: seq<Row>, id: nat)
    ensures Patched(rows, id, map[]) == rows
  {
    if rows != [] {
      PatchedByNothing(rows[..|rows| - 1], id);
      assert rows[|rows| - 1].extras + map[] == rows[|rows| - 1].extras;
    }
  }

  lemma {:induction false} CreatedIds(order: seq<string>, merged: map<string, Extras>, existing: map<string, Row>,
                                      parent: string, fields: set<string>, nextId: nat)
    requires forall id | id in order :: id in merged
    ensures forall i | 0 <= i < |Created(order, merged, existing, parent, fields, nextId)| ::
              Created(order, merged, existing, parent, fields, nextId)[i].id == nextId + i
  {
    hide Picked;
    if order != [] {
      CreatedIds(order[..|order| - 1], merged, existing, parent, fields, nextId);
    }
  }

  lemma CreatedOneMore(order: seq<string>, k: nat, merged: map<string, Extras>, existing: map<string, Row>,
                       parent: string, fields: set<string>, nextId: nat)
    requires k < |order| && forall id | id in order :: id in merged
    ensures var before := Created(order[..k], merged, existing, parent, fields, nextId);
            Created(order[..k + 1], merged, existing, parent, fields, nextId)
            == if order[k] in existing then before
               else before + [Row(nextId + |before|, Text(parent), Text(order[k]), Picked(merged[order[k]], fields))]
  {
    assert order[..k + 1][..k] == order[..k];
  }

  // Every entry of the table can be addressed by the identifier of its row.
  lemma EntriesIdentified(rows: seq<Row>, parent: string)
    requires UniqueIds(rows)
    ensures var existing := Existing(RowsOf(rows, parent)).at;
            forall k | k in existing :: Show(existing[k].foreign) == k && Identified(rows, parent, existing[k])
              && existing[k] in rows
  {
    hide Existing, Show;
    var of := RowsOf(rows, parent);
    ExistingIndexes(of);
    forall k | k in Existing(of).at
      ensures Identified(rows, parent, Existing(of).at[k])
    {
      OnlyOneHas(rows, Existing(of).at[k]);
    }
  }

  lemma OnlyOneHas(rows: seq<Row>, e: Row)
    requires UniqueIds(rows) && e in rows
    ensures forall r | r in rows && r.id == e.id :: r == e
  {
  }

  method ExistingByForeign(rows: seq<Row>) returns (t: Table<Row>)
    ensures t == Existing(rows)
  {
    t := Table([], map[]);
    var i := 0;
    while i < |rows|
      invariant 0 <= i <= |rows| && t == Existing(rows[..i])
    {
      assert rows[..i + 1][..i] == rows[..i];
      t := Put(t, Show(rows[i].foreign), rows[i]);
      i := i + 1;
    }
    assert rows[..i] == rows;
  }

  method IncomingByForeign(items: seq<Item>) returns (t: Table<Extras>)
    ensures t == Merged(items)
  {
    t := Table([], map[]);
    var i := 0;
    while i < |items|
      invariant 0 <= i <= |items| && t == Merged(items[..i])
    {
      assert items[..i + 1][..i] == items[..i];
      var item := items[i];
      t := Put(t, item.id, if item.id in t.at then t.at[item.id] + item.extras else item.extras);
      i := i + 1;
    }
    assert items[..i] == items;
  }

  // The rows of the parent whose key is not submitted any more.
  method DeleteStale(junction: Resource, parent: string, existing: Table<Row>, ids: set<string>)
    requires junction.Valid() && Ordered(existing)
    requires forall k | k in existing.at ::
      Show(existing.at[k].foreign) == k && Identified(junction.rows, parent, existing.at[k])
    modifies junction`rows
    ensures junction.rows == Survivors(old(junction.rows), parent, existing.at, existing.at.Keys - ids, map[])
  {
    hide Survivors, Without, Identified;
    ghost var rows := junction.rows;
    ghost var doomed: set<string> := {};
    NoneDoomed(rows, parent, existing.at);
    var i := 0;
    while i < |existing.order|
      invariant 0 <= i <= |existing.order|
      invariant forall k :: k in doomed <==> k in existing.order[..i] && k !in ids
      invariant junction.rows == Survivors(rows, parent, existing.at, doomed, map[])
    {
      var key := existing.order[i];
      if key !in ids {
        DeleteOne(rows, parent, existing.at, doomed, key);
        junction.Delete(existing.at[key].id);
        doomed := doomed + {key};
      }
      i := i + 1;
    }
    assert existing.order[..i] == existing.order;
    assert doomed == existing.at.Keys - ids;
  }

  lemma {:induction false} NoneDoomed(rows: seq<Row>, parent: string, existing: map<string, Row>)
    ensures Survivors(rows, parent, existing, {}, map[]) == rows
  {
    if rows != [] {
      NoneDoomed(rows[..|rows| - 1], parent, existing);
    }
  }

  method Updates(extras: Extras, fields: seq<string>) returns (updates: Extras)
    ensures updates == Picked(extras, Elems(fields))
  {
    updates := map[];
    var i := 0;
    while i < |fields|
      invariant 0 <= i <= |fields| && updates == Picked(extras, Elems(fields[..i]))
    {
      ElemsSnoc(fields, i);
      if fields[i] in extras {
        updates := updates[fields[i] := extras[fields[i]]];
      }
      i := i + 1;
    }
    assert fields[..i] == fields;
  }

  lemma PatchesOneMore(order: seq<string>, k: nat, merged: map<string, Extras>, existing: map<string, Row>,
                       fields: set<string>)
    requires k < |order| && order[k] in merged
    ensures Patches(merged, existing, Elems(order[..k + 1]), fields)
         == if order[k] in existing then Patches(merged, existing, Elems(order[..k]), fields)[order[k] := Picked(merged[order[k]], fields)]
            else Patches(merged, existing, Elems(order[..k]), fields)
  {
  }

  // One more patch of a row there was, behind which new rows may already stand.
  lemma PatchOneMore(rows: seq<Row>, created: seq<Row>, parent: string, existing: map<string, Row>, doomed: set<string>,
                     patches: map<string, Extras>, key: string, patch: Extras)
    requires key in existing && key !in doomed && key !in patches
    requires Show(existing[key].foreign) == key && Identified(rows, parent, existing[key])
    requires forall r | r in created :: r.id != existing[key].id
    ensures var s := Survivors(rows, parent, existing, doomed, patches) + created;
            var s' := Survivors(rows, parent, existing, doomed, patches[key := patch]) + created;
            Patched(s, existing[key].id, patch) == s' && (patch == map[] ==> s == s')
  {
    hide Survivors, Patched, Identified;
    PatchedOthers(Survivors(rows, parent, existing, doomed, patches), created, existing[key].id, patch);
    PatchOne(rows, parent, existing, doomed, patches, key, patch);
    if patch == map[] {
      PatchedByNothing(Survivors(rows, parent, existing, doomed, patches), existing[key].id);
    }
  }

  // Insert what is new, and update the extra fields of what is there.
  method Persist(junction: Resource, parent: string, existing: map<string, Row>, doomed: set<string>,
                 merged: Table<Extras>,
                 fields: seq<string>, ghost rows: seq<Row>)
    requires Ordered(merged) && doomed !! merged.at.Keys
    requires junction.rows == Survivors(rows, parent, existing, doomed, map[])
    requires forall k | k in existing ::
      existing[k].id < junction.nextId && Show(existing[k].foreign) == k && Identified(rows, parent, existing[k])
    modifies junction`rows, junction`nextId
    ensures Ordered(merged)
    ensures junction.rows == Survivors(rows, parent, existing, doomed, Patches(merged.at, existing, merged.at.Keys, Elems(fields)))
                             + Created(merged.order, merged.at, existing, parent, Elems(fields), old(junction.nextId))
    ensures junction.nextId == old(junction.nextId) + |Created(merged.order, merged.at, existing, parent, Elems(fields), old(junction.nextId))|
  {
    hide Survivors, Created, Patches, Picked, Identified;
    ghost var first, f := junction.nextId, Elems(fields);
    ghost var created: seq<Row> := [];
    ghost var patches: map<string, Extras> := map[];
    NothingYet(merged, existing, parent, f, first);
    var i := 0;
    while i < |merged.order|
      invariant 0 <= i <= |merged.order|
      invariant patches == Patches(merged.at, existing, Elems(merged.order[..i]), f)
      invariant created == Created(merged.order[..i], merged.at, existing, parent, f, first)
      invariant junction.rows == Survivors(rows, parent, existing, doomed, patches) + created
      invariant junction.nextId == first + |created|
    {
      var id := merged.order[i];
      var updates := Updates(merged.at[id], fields);
      CreatedOneMore(merged.order, i, merged.at, existing, parent, f, first);
      PatchesOneMore(merged.order, i, merged.at, existing, f);
      if id in existing {
        CreatedIds(merged.order[..i], merged.at, existing, parent, f, first);
        NotYetPatched(merged, i, existing, f);
        PatchOneMore(rows, created, parent, existing, doomed, patches, id, updates);
        if |fields| > 0 && updates != map[] {
          junction.Update(existing[id].id, updates);
        }
        NoFields(merged.at[id], fields);
        patches := patches[id := updates];
      } else {
        junction.Create(Text(parent), Text(id), updates);
        created := created + [Row(first + |created|, Text(parent), Text(id), updates)];
      }
      i := i + 1;
    }
    assert merged.order[..i] == merged.order;
    assert Elems(merged.order) == merged.at.Keys;
  }

  lemma NothingYet(merged: Table<Extras>, existing: map<string, Row>, parent: string, fields: set<string>, first: nat)
    ensures Patches(merged.at, existing, Elems(merged.order[..0]), fields) == map[]
    ensures Created(merged.order[..0], merged.at, existing, parent, fields, first) == []
  {
  }

  lemma NotYetPatched(merged: Table<Extras>, i: nat, existing: map<string, Row>, fields: set<string>)
    requires Ordered(merged) && i < |merged.order|
    ensures merged.order[i] !in Patches(merged.at, existing, Elems(merged.order[..i]), fields)
  {
  }

  lemma NoFields(extras: Extras, fields: seq<string>)
    ensures fields == [] ==> Picked(extras, Elems(fields)) == map[]
  {
  }

  // Rows survive as rows of the same parent and key, with the same identifier.
  lemma SettledKeepsKeys(r: Row, parent: string, existing: map<string, Row>, doomed: set<string>,
                         patches: map<string, Extras>, key: string)
    ensures var s := Settled(r, parent, existing, doomed, patches);
            && (s == [] || (|s| == 1 && s[0].id == r.id && s[0].local == r.local && s[0].foreign == r.foreign))
            && (s == [] <==> Chosen(r, parent, existing) && Show(r.foreign) in doomed)
  {
  }

  lemma {:induction false} SurvivorsIds(rows: seq<Row>, parent: string, existing: map<string, Row>,
                                        doomed: set<string>, patches: map<string, Extras>)
    requires UniqueIds(rows)
    ensures var after := Survivors(rows, parent, existing, doomed, patches);
            UniqueIds(after) && forall r | r in after :: exists q | q in rows :: q.id == r.id
  {
    hide Settled;
    if rows != [] {
      var n := |rows| - 1;
      var before := Survivors(rows[..n], parent, existing, doomed, patches);
      var s := Settled(rows[n], parent, existing, doomed, patches);
      SurvivorsIds(rows[..n], parent, existing, doomed, patches);
      SettledKeepsKeys(rows[n], parent, existing, doomed, patches, "");
      assert rows == rows[..n] + [rows[n]];
      if s != [] {
        assert s == [s[0]];
        OneMoreId(before, s[0], rows[..n], rows[n]);
      }
    }
  }

  lemma OneMoreId(before: seq<Row>, r: Row, rows: seq<Row>, q: Row)
    requires UniqueIds(before) && UniqueIds(rows + [q]) && r.id == q.id
    requires forall r | r in before :: exists q | q in rows :: q.id == r.id
    ensures UniqueIds(before + [r])
  {
    forall i | 0 <= i < |before|
      ensures before[i].id != r.id
    {
      assert before[i] in before;
      var q' :| q' in rows && q'.id == before[i].id;
      var j :| 0 <= j < |rows| && rows[j] == q';
      assert (rows + [q])[j].id != (rows + [q])[|rows|].id;
    }
  }

  lemma CreatedBelow(order: seq<string>, merged: map<string, Extras>, existing: map<string, Row>, parent: string,
                     fields: set<string>, nextId: nat)
    requires forall id | id in order :: id in merged
    ensures var c := Created(order, merged, existing, parent, fields, nextId);
            UniqueIds(c) && forall r | r in c :: nextId <= r.id < nextId + |c|
  {
  }

  lemma AppendedIds(s: seq<Row>, c: seq<Row>, nextId: nat)
    requires UniqueIds(s) && IdsBelow(s, nextId) && UniqueIds(c) && forall r | r in c :: nextId <= r.id < nextId + |c|
    ensures UniqueIds(s + c) && IdsBelow(s + c, nextId + |c|)
  {
  }

  // Identifiers stay distinct and below the next one.
  lemma DiffIds(rows: seq<Row>, nextId: nat, parent: string, fields: set<string>, incoming: seq<Item>)
    requires UniqueIds(rows) && IdsBelow(rows, nextId)
    ensures UniqueIds(Diff(rows, nextId, parent, fields, incoming))
    ensures IdsBelow(Diff(rows, nextId, parent, fields, incoming), NextId(rows, nextId, parent, fields, incoming))
  {
    hide Survivors, Created, Existing, RowsOf, Patches, UniqueIds;
    var existing, merged := Existing(RowsOf(rows, parent)).at, Merged(incoming);
    MergedKeys(incoming);
    var doomed, patches := existing.Keys - merged.at.Keys, Patches(merged.at, existing, merged.at.Keys, fields);
    var s := Survivors(rows, parent, existing, doomed, patches);
    var c := Created(merged.order, merged.at, existing, parent, fields, nextId);
    SurvivorsIds(rows, parent, existing, doomed, patches);
    CreatedBelow(merged.order, merged.at, existing, parent, fields, nextId);
    AppendedIds(s, c, nextId);
  }

  method ApplyDiff(junction: Resource, parent: string, fields: seq<string>, incoming: seq<Item>)
    requires junction.Valid() && junction.Finds({parent})
    modifies junction`rows, junction`nextId
    ensures junction.rows == Diff(old(junction.rows), old(junction.nextId), parent, Elems(fields), incoming)
    ensures junction.Valid()
  {
    hide Survivors, Created, Patches, Identified, RowsOf, Existing, Merged;
    ghost var rows := junction.rows;
    var rowsOfParent := junction.RowsForParent(parent);
    var existing := ExistingByForeign(rowsOfParent);
    ExistingIndexes(rowsOfParent);
    EntriesIdentified(rows, parent);
    DeleteStale(junction, parent, existing, set item | item in incoming :: item.id);
    var merged := IncomingByForeign(incoming);
    MergedKeys(incoming);
    DiffIds(rows, junction.nextId, parent, Elems(fields), incoming);
    Persist(junction, parent, existing.at, existing.at.Keys - merged.at.Keys, merged, fields, rows);
  }
}
