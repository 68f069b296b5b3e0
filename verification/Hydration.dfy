// Reading a many-to-many property back: `hydrateRecordParams` for one record and
// `hydrateListRecords` for a page of records at once.
module Hydration {
  import opened Prelude
  import opened Junction
  import opened M2mDiff

  datatype Reference = Reference(id: string, json: string)
  datatype Param = Items(items: seq<Item>) | Other(value: string)

  class Record {
    const id: string
    var params: map<string, Param>
    var populated: map<string, string>

    constructor (id: string)
      ensures this.id == id && params == map[] && populated == map[]
    {
      this.id, params, populated := id, map[], map[];
    }
  }

  // `String(value ?? '')`.
  function OrEmpty(c: Cell): string {
    if c.Text? then c.text else ""
  }

  function ItemOf(row: Row, fields: set<string>): Item {
    Item(OrEmpty(row.foreign), Picked(row.extras, fields))
  }

  function ItemsOf(rows: seq<Row>, fields: set<string>): (items: seq<Item>)
    ensures |items| == |rows|
  {
    if rows == [] then [] else ItemsOf(rows[..|rows| - 1], fields) + [ItemOf(rows[|rows| - 1], fields)]
  }

  function Key(property: string, id: string): string {
    property + "." + id
  }

  // The JSON of the references in `ids`, under their keys in `populated`.
  function Links(property: string, references: seq<Reference>, ids: set<string>): map<string, string> {
    if references == [] then map[]
    else
      var last, before := references[|references| - 1], Links(property, references[..|references| - 1], ids);
      if last.id in ids then before[Key(property, last.id) := last.json] else before
  }

  function FindMany(references: seq<Reference>, ids: set<string>): seq<Reference> {
    if references == [] then []
    else FindMany(references[..|references| - 1], ids) + if references[|references| - 1].id in ids then [references[|references| - 1]] else []
  }

  method Build(rows: seq<Row>, fields: set<string>) returns (items: seq<Item>)
    ensures items == ItemsOf(rows, fields)
  {
    items := [];
    var i := 0;
    while i < |rows|
      invariant 0 <= i <= |rows| && items == ItemsOf(rows[..i], fields)
    {
      assert rows[..i + 1][..i] == rows[..i];
      items := items + [ItemOf(rows[i], fields)];
      i := i + 1;
    }
    assert rows[..i] == rows;
  }

  lemma LinksPush(property: string, found: seq<Reference>, last: Reference, ids: set<string>)
    ensures Links(property, found + [last], ids)
         == if last.id in ids then Links(property, found, ids)[Key(property, last.id) := last.json] else Links(property, found, ids)
  {
  }

  lemma FoundPush(references: seq<Reference>, wider: set<string>)
    requires references != []
    ensures var last, found := references[|references| - 1], FindMany(references[..|references| - 1], wider);
            FindMany(references, wider) == if last.id in wider then found + [last] else found
  {
  }

  lemma {:induction false} LinksOfFound(property: string, references: seq<Reference>, ids: set<string>,
                                        wider: set<string>)
    requires ids <= wider
    ensures Links(property, FindMany(references, wider), ids) == Links(property, references, ids)
  {
    if references != [] {
      var n := |references| - 1;
      var last, found := references[n], FindMany(references[..n], wider);
      LinksOfFound(property, references[..n], ids, wider);
      assert references == references[..n] + [last];
      hide Key, Links, FindMany;
      LinksPush(property, references[..n], last, ids);
      LinksPush(property, found, last, ids);
      FoundPush(references, wider);
    }
  }

  // ---- one record ----------------------------------------------------------

  // What the rows of a record make of it.
  ghost predicate Hydrated(rec: Record, params: map<string, Param>, populated: map<string, string>,
                           rows: seq<Row>, references: seq<Reference>, property: string, fields: set<string>)
    reads rec
  {
    && rec.params == params[property := Items(ItemsOf(rows, fields))]
    && rec.populated == populated + Links(property, references, Ids(ItemsOf(rows, fields)))
  }

  lemma {:induction false} NoLinks(property: string, references: seq<Reference>)
    ensures Links(property, references, {}) == map[]
  {
    if references != [] {
      NoLinks(property, references[..|references| - 1]);
    }
  }

  lemma {:induction false} FoundAreWanted(references: seq<Reference>, ids: set<string>)
    ensures forall r | r in FindMany(references, ids) :: r.id in ids
  {
    if references != [] {
      FoundAreWanted(references[..|references| - 1], ids);
    }
  }

  method Populate(rec: Record, found: seq<Reference>, property: string, ghost ids: set<string>)
    requires forall r | r in found :: r.id in ids
    modifies rec`populated
    ensures rec.populated == old(rec.populated) + Links(property, found, ids)
  {
    hide Key;
    var i := 0;
    while i < |found|
      invariant 0 <= i <= |found|
      invariant rec.populated == old(rec.populated) + Links(property, found[..i], ids)
    {
      assert found[..i + 1][..i] == found[..i];
      rec.populated := rec.populated[Key(property, found[i].id) := found[i].json];
      i := i + 1;
    }
    assert found[..i] == found;
  }

  // `registered`: both resources are known. An unknown resource leaves the
  // property empty.
  method HydrateRecordParams(rec: Record, registered: bool, junction: Resource, references: seq<Reference>,
                             property: string, fields: set<string>)
    modifies rec
    ensures var rows := if registered then RowsOf(junction.Found(rec.id), rec.id) else [];
            Hydrated(rec, old(rec.params), old(rec.populated), rows, references, property, fields)
  {
    hide RowsOf, Links, FindMany, Key;
    if !registered {
      rec.params := rec.params[property := Items([])];
      NoLinks(property, references);
      assert Ids([]) == {};
      return;
    }
    var rows := junction.RowsForParent(rec.id);
    var items := Build(rows, fields);
    rec.params := rec.params[property := Items(items)];
    if |items| == 0 {
      NoLinks(property, references);
      assert Ids(items) == {};
      return;
    }
    ghost var ids := Ids(items);
    var found := FindMany(references, set item | item in items :: item.id);
    LinksOfFound(property, references, ids, ids);
    FoundAreWanted(references, ids);
    Populate(rec, found, property, ids);
  }

  // ---- a page of records ---------------------------------------------------

  // The rows that the batch puts into the bucket of `id`.
  function Grouped(rows: seq<Row>, id: string): (of: seq<Row>)
    ensures forall r :: r in of <==> r in rows && OrEmpty(r.local) == id
  {
    if rows == [] then []
    else
      var last, of := rows[|rows| - 1], Grouped(rows[..|rows| - 1], id);
      assert forall r :: r in rows <==> r in rows[..|rows| - 1] || r == last by {
        assert rows == rows[..|rows| - 1] + [last];
      }
      if OrEmpty(last.local) == id then of + [last] else of
  }

  function Bucket(buckets: map<string, seq<Row>>, id: string): seq<Row> {
    if id in buckets then buckets[id] else []
  }

  method RowsByParent(rows: seq<Row>, parents: set<string>) returns (buckets: map<string, seq<Row>>)
    ensures forall id | id in parents :: Bucket(buckets, id) == Grouped(rows, id)
  {
    buckets := map[];
    var i := 0;
    while i < |rows|
      invariant 0 <= i <= |rows|
      invariant forall id | id in parents :: Bucket(buckets, id) == Grouped(rows[..i], id)
    {
      GroupedOneMore(rows, i);
      var pid := OrEmpty(rows[i].local);
      if pid in parents {
        buckets := buckets[pid := Bucket(buckets, pid) + [rows[i]]];
      }
      i := i + 1;
    }
    assert rows[..i] == rows;
  }

  lemma GroupedOneMore(rows: seq<Row>, i: nat)
    requires i < |rows|
    ensures forall id :: Grouped(rows[..i + 1], id) == Grouped(rows[..i], id) + if OrEmpty(rows[i].local) == id then [rows[i]] else []
  {
    assert rows[..i + 1][..i] == rows[..i];
  }

  // The last JSON of an identifier, as the map of references by identifier.
  function JsonById(references: seq<Reference>): map<string, string> {
    if references == [] then map[]
    else JsonById(references[..|references| - 1])[references[|references| - 1].id := references[|references| - 1].json]
  }

  method CollectJson(found: seq<Reference>) returns (json: map<string, string>)
    ensures json == JsonById(found)
  {
    json := map[];
    var i := 0;
    while i < |found|
      invariant 0 <= i <= |found| && json == JsonById(found[..i])
    {
      assert found[..i + 1][..i] == found[..i];
      json := json[found[i].id := found[i].json];
      i := i + 1;
    }
    assert found[..i] == found;
  }

  lemma KeyIsInjective(property: string, a: string, b: string)
    requires Key(property, a) == Key(property, b)
    ensures a == b
  {
    var n := |property| + 1;
    assert a == Key(property, a)[n..] && b == Key(property, b)[n..];
  }

  // One more identifier is one more link, when it has a reference.
  lemma {:induction false} LinksOneMore(property: string, references: seq<Reference>, ids: set<string>, id: string)
    ensures Links(property, references, ids + {id})
         == if id in JsonById(references) then Links(property, references, ids)[Key(property, id) := JsonById(references)[id]]
            else Links(property, references, ids)
  {
    hide Key;
    if references != [] {
      var n := |references| - 1;
      LinksOneMore(property, references[..n], ids, id);
      if Key(property, id) == Key(property, references[n].id) {
        KeyIsInjective(property, id, references[n].id);
      }
    }
  }

  method HydrateFromBatch(rec: Record, items: seq<Item>, json: map<string, string>, ghost found: seq<Reference>,
                          property: string)
    requires json == JsonById(found)
    modifies rec
    ensures rec.params == old(rec.params)[property := Items(items)]
    ensures rec.populated == old(rec.populated) + Links(property, found, Ids(items))
  {
    hide Key, Links, JsonById;
    rec.params := rec.params[property := Items(items)];
    NoLinks(property, found);
    var i := 0;
    assert Ids(items[..0]) == {};
    while i < |items|
      invariant 0 <= i <= |items|
      invariant rec.params == old(rec.params)[property := Items(items)]
      invariant rec.populated == old(rec.populated) + Links(property, found, Ids(items[..i]))
    {
      assert Ids(items[..i + 1]) == Ids(items[..i]) + {items[i].id} by {
        assert items[..i + 1] == items[..i] + [items[i]];
      }
      LinksOneMore(property, found, Ids(items[..i]), items[i].id);
      if items[i].id in json {
        rec.populated := rec.populated[Key(property, items[i].id) := json[items[i].id]];
      }
      i := i + 1;
    }
    assert items[..i] == items;
  }

  // The items of every parent, and the identifiers they refer to.
  method ItemsByParent(parents: seq<string>, buckets: map<string, seq<Row>>, rows: seq<Row>, fields: set<string>)
    returns (items: map<string, seq<Item>>, ids: set<string>)
    requires forall id | id in parents :: Bucket(buckets, id) == Grouped(rows, id)
    ensures forall id | id in parents ::
      id in items && items[id] == ItemsOf(Grouped(rows, id), fields) && Ids(items[id]) <= ids
  {
    hide Bucket, Grouped, ItemsOf;
    items, ids := map[], {};
    var i := 0;
    while i < |parents|
      invariant 0 <= i <= |parents|
      invariant forall id | id in parents[..i] ::
        id in items && items[id] == ItemsOf(Grouped(rows, id), fields) && Ids(items[id]) <= ids
    {
      var built := Build(Bucket(buckets, parents[i]), fields);
      items := items[parents[i] := built];
      ids := ids + set item | item in built :: item.id;
      assert forall id :: id in parents[..i + 1] <==> id in parents[..i] || id == parents[i];
      i := i + 1;
    }
    assert parents[..i] == parents;
  }

  lemma {:induction false} NothingFound(references: seq<Reference>)
    ensures FindMany(references, {}) == []
  {
    if references != [] {
      NothingFound(references[..|references| - 1]);
    }
  }

  method HydrateListRecords(records: seq<Record>, registered: bool, junction: Resource, references: seq<Reference>,
                            property: string, fields: set<string>)
    requires forall i, j | 0 <= i < j < |records| :: records[i] != records[j]
    modifies set rec | rec in records
    ensures var rows := Slice(junction.FoundIn(seq(|records|, i requires 0 <= i < |records| => records[i].id)), 0, LIST_LIMIT);
            forall rec | rec in records ::
              Hydrated(rec, old(rec.params), old(rec.populated), if registered then Grouped(rows, rec.id) else [], references, property, fields)
  {
    hide FindMany, JsonById, Grouped, ItemsOf, Links, Key;
    if !registered {
      EmptyProperties(records, references, property, fields);
      return;
    }
    if |records| == 0 {
      return;
    }
    var parents := seq(|records|, i requires 0 <= i < |records| => records[i].id);
    var rows := Slice(junction.FoundIn(parents), 0, LIST_LIMIT);
    var buckets := RowsByParent(rows, set id | id in parents);
    var items, ids := ItemsByParent(parents, buckets, rows, fields);
    NothingFound(references);
    var found := if ids != {} then FindMany(references, ids) else [];
    var json := CollectJson(found);
    var i := 0;
    while i < |records|
      invariant 0 <= i <= |records|
      invariant forall j | 0 <= j < i ::
        Hydrated(records[j], old(records[j].params), old(records[j].populated), Grouped(rows, records[j].id), references, property, fields)
      invariant forall j | i <= j < |records| ::
        records[j].params == old(records[j].params) && records[j].populated == old(records[j].populated)
    {
      var rec := records[i];
      assert parents[i] == rec.id;
      LinksOfFound(property, references, Ids(items[rec.id]), ids);
      HydrateFromBatch(rec, items[rec.id], json, found, property);
      i := i + 1;
    }
  }

  method EmptyProperties(records: seq<Record>, ghost references: seq<Reference>, property: string,
                         ghost fields: set<string>)
    requires forall i, j | 0 <= i < j < |records| :: records[i] != records[j]
    modifies set rec | rec in records
    ensures forall rec | rec in records ::
      Hydrated(rec, old(rec.params), old(rec.populated), [], references, property, fields)
  {
    NoLinks(property, references);
    assert Ids([]) == {};
    var i := 0;
    while i < |records|
      invariant 0 <= i <= |records|
      invariant forall j | 0 <= j < i ::
        Hydrated(records[j], old(records[j].params), old(records[j].populated), [], references, property, fields)
      invariant forall j | i <= j < |records| ::
        records[j].params == old(records[j].params) && records[j].populated == old(records[j].populated)
    {
      records[i].params := records[i].params[property := Items([])];
      i := i + 1;
    }
  }

  // ---- what a record shows -------------------------------------------------

  // One item for each row, in order: its identifier is the row's foreign key, and its
  // extra fields are those that are listed and that the row has.
  lemma {:induction false} ItemsShow(rows: seq<Row>, fields: set<string>, i: nat, f: string)
    requires i < |rows|
    ensures var item := ItemsOf(rows, fields)[i];
            && item.id == (match rows[i].foreign case Text(text) => text case _ => "")
            && (f in item.extras <==> f in fields && f in rows[i].extras)
            && (f in item.extras ==> item.extras[f] == rows[i].extras[f])
  {
    var n := |rows| - 1;
    if i < n {
      ItemsShow(rows[..n], fields, i, f);
    }
  }

  // The JSON of the last reference with an identifier.
  ghost predicate IsLastJson(references: seq<Reference>, id: string, json: string) {
    exists i :: 0 <= i < |references| && references[i].id == id && references[i].json == json
      && forall j | i < j < |references| :: references[j].id != id
  }

  lemma {:induction false} LinksShow(property: string, references: seq<Reference>, ids: set<string>, id: string)
    ensures property + "." + id in Links(property, references, ids) <==>
      id in ids && exists i :: 0 <= i < |references| && references[i].id == id
    ensures property + "." + id in Links(property, references, ids) ==>
      IsLastJson(references, id, Links(property, references, ids)[property + "." + id])
  {
    if references != [] {
      var n := |references| - 1;
      LinksShow(property, references[..n], ids, id);
      assert forall i | 0 <= i < n :: references[..n][i] == references[i];
      if references[n].id == id {
        assert IsLastJson(references, id, references[n].json);
      } else {
        KeyIsNew(property, id, references[n].id);
        if property + "." + id in Links(property, references[..n], ids) {
          LastJsonStays(references, id, Links(property, references[..n], ids)[property + "." + id]);
        }
      }
    }
  }

  lemma KeyIsNew(property: string, a: string, b: string)
    requires a != b
    ensures property + "." + a != property + "." + b
  {
    var n := |property| + 1;
    assert a == (property + "." + a)[n..] && b == (property + "." + b)[n..];
  }

  lemma LastJsonStays(references: seq<Reference>, id: string, json: string)
    requires references != [] && references[|references| - 1].id != id
    requires IsLastJson(references[..|references| - 1], id, json)
    ensures IsLastJson(references, id, json)
  {
    var before := references[..|references| - 1];
    var i :| 0 <= i < |before| && before[i].id == id && before[i].json == json && forall j | i < j < |before| ::
      before[j].id != id;
    assert references[i] == before[i] && forall j | i < j < |before| :: references[j] == before[j];
  }

  lemma {:induction false} OnlyItsLinks(property: string, references: seq<Reference>, ids: set<string>, key: string)
    requires key in Links(property, references, ids)
    ensures exists id :: id in ids && key == property + "." + id
  {
    if references != [] {
      var n := |references| - 1;
      if key != Key(property, references[n].id) || references[n].id !in ids {
        OnlyItsLinks(property, references[..n], ids, key);
      }
    }
  }

  // ---- the two agree -------------------------------------------------------

  // A row without a parent key counts for `id` when the record is read alone, as
  // the text that `String` makes of the key, if the filter of `id` finds it; and in
  // the batch as the empty string, if the filter of the page does.
  ghost predicate CountsAlone(junction: Resource, r: Row, id: string)
    reads junction
  {
    Show(r.local) == id && junction.matches(r, id)
  }

  ghost predicate CountsInBatch(junction: Resource, r: Row, parents: seq<string>, id: string)
    reads junction
  {
    OrEmpty(r.local) == id && junction.among(r, parents)
  }

  lemma {:induction false} MatchingMembers(rows: seq<Row>, matches: Row -> bool)
    ensures forall r :: r in Matching(rows, matches) <==> r in rows && matches(r)
  {
    if rows != [] {
      var n := |rows| - 1;
      MatchingMembers(rows[..n], matches);
      assert rows == rows[..n] + [rows[n]];
    }
  }

  // Two filters and two readings of the key that come to the same for every row.
  lemma {:induction false} SameRowsTaken(rows: seq<Row>, m: Row -> bool, m': Row -> bool, id: string)
    requires forall r | r in rows :: (m(r) && Show(r.local) == id) <==> (m'(r) && OrEmpty(r.local) == id)
    ensures RowsOf(Matching(rows, m), id) == Grouped(Matching(rows, m'), id)
  {
    hide Show, OrEmpty;
    if rows != [] {
      var n := |rows| - 1;
      var of, of' := Matching(rows[..n], m), Matching(rows[..n], m');
      assert forall r | r in rows[..n] :: r in rows;
      assert rows[n] in rows;
      SameRowsTaken(rows[..n], m, m', id);
      assert (of + [rows[n]])[..|of|] == of && (of' + [rows[n]])[..|of'|] == of';
    }
  }

  // Within the limit, the batch takes the same rows for a record as reading it
  // alone does, exactly when no row without a parent key counts for it in one of
  // the two and not in the other.
  lemma BatchAgreesExactly(junction: Resource, parents: seq<string>, id: string)
    requires junction.Complete() && id in parents && |junction.FoundIn(parents)| <= LIST_LIMIT
    ensures Grouped(Slice(junction.FoundIn(parents), 0, LIST_LIMIT), id) == RowsOf(junction.Found(id), id) <==>
      forall r | r in junction.rows && !r.local.Text? :: CountsAlone(junction, r, id) <==>
        CountsInBatch(junction, r, parents, id)
  {
    var rows := junction.rows;
    var m, m' := (r: Row) => junction.matches(r, id), (r: Row) => junction.among(r, parents);
    assert Slice(junction.FoundIn(parents), 0, LIST_LIMIT) == junction.FoundIn(parents) == Matching(rows, m');
    MatchingMembers(rows, m);
    MatchingMembers(rows, m');
    TextRowsCount(junction, parents, id);
    if forall r | r in rows && !r.local.Text? :: CountsAlone(junction, r, id) <==> CountsInBatch(junction, r, parents, id) {
      assert forall r | r in rows :: CountsAlone(junction, r, id) <==> CountsInBatch(junction, r, parents, id);
      SameRowsTaken(rows, m, m', id);
    } else {
      var r :| r in rows && !r.local.Text?
        && !(CountsAlone(junction, r, id) <==> CountsInBatch(junction, r, parents, id));
      assert r in RowsOf(Matching(rows, m), id) <==> CountsAlone(junction, r, id);
      assert r in Grouped(Matching(rows, m'), id) <==> CountsInBatch(junction, r, parents, id);
    }
  }

  lemma TextRowsCount(junction: Resource, parents: seq<string>, id: string)
    requires junction.Complete() && id in parents
    ensures forall r | r in junction.rows && r.local.Text? :: CountsAlone(junction, r, id) <==>
      CountsInBatch(junction, r, parents, id)
  {
  }

  // So they agree, and both take all rows of the record, for every record whose
  // identifier is not the empty string and not what `String` makes of a missing
  // or null key.
  lemma BatchAgrees(junction: Resource, parents: seq<string>, id: string)
    requires junction.Complete() && id in parents && |junction.FoundIn(parents)| <= LIST_LIMIT
    requires id != "" && id != Show(Missing) && id != Show(Null)
    ensures Grouped(Slice(junction.FoundIn(parents), 0, LIST_LIMIT), id) == RowsOf(junction.Found(id), id) ==
      RowsOf(junction.rows, id)
  {
    hide Matching, Grouped, RowsOf;
    BatchAgreesExactly(junction, parents, id);
    junction.OrdinaryParentsAreFound({id});
    junction.FoundKeepsRows(id);
  }

  // A junction that two readings take apart: an adapter that leaves the filtering to
  // its caller, and a row whose parent key is null or missing. Alone, a record named
  // `null`, or `undefined`, has the row; in the batch it has not, and the record
  // without a name has it.
  lemma ReadingsDiffer(junction: Resource, r: Row)
    requires junction.rows == [r] && !r.local.Text?
    requires (forall p :: junction.matches(r, p)) && (forall parents :: junction.among(r, parents))
    ensures var name := if r.local == Null then "null" else "undefined";
            var batch := Slice(junction.FoundIn([name, ""]), 0, LIST_LIMIT);
            && junction.Complete() && |junction.FoundIn([name, ""])| <= LIST_LIMIT
            && RowsOf(junction.Found(name), name) == [r] && RowsOf(junction.Found(""), "") == []
            && Grouped(batch, name) == [] && Grouped(batch, "") == [r]
  {
    var name := if r.local == Null then "null" else "undefined";
    assert junction.rows[..0] == [];
    assert name[0] == 'n' || name[0] == 'u';
    assert junction.Found(name) == [r] && junction.Found("") == [r] && junction.FoundIn([name, ""]) == [r];
    assert [r][..0] == [];
  }

  // Such a junction can be made.
  method TakeApart() returns (junction: Resource, r: Row)
    ensures fresh(junction) && junction.rows == [r] && r.local == Null
    ensures (forall p :: junction.matches(r, p)) && (forall parents :: junction.among(r, parents))
  {
    junction := new Resource((_, _) => true, (_, _) => true);
    junction.Create(Null, Text("x"), map[]);
    r := junction.rows[0];
  }
}
