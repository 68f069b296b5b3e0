// A junction resource of a many-to-many relation, and the rows of one parent.
module Junction {
  import opened Prelude

  type Extras = map<string, string>

  // The value of a key column, and what `String` makes of it.
  datatype Cell = Missing | Null | Text(text: string)

  function Show(c: Cell): string {
    match c case Missing => "undefined" case Null => "null" case Text(text) => text
  }

  datatype Row = Row(id: nat, local: Cell, foreign: Cell, extras: Extras)

  function RowsOf(rows: seq<Row>, parent: string): (of: seq<Row>)
    ensures forall r :: r in of <==> r in rows && Show(r.local) == parent
    ensures |of| <= |rows|
  {
    if rows == [] then []
    else
      var last := rows[|rows| - 1];
      var of := RowsOf(rows[..|rows| - 1], parent);
      assert forall r :: r in rows <==> r in rows[..|rows| - 1] || r == last by {
        assert rows == rows[..|rows| - 1] + [last];
      }
      if Show(last.local) == parent then of + [last] else of
  }

  function Matching(rows: seq<Row>, matches: Row -> bool): (of: seq<Row>)
    ensures |of| <= |rows|
  {
    if rows == [] then []
    else
      var last := rows[|rows| - 1];
      var of := Matching(rows[..|rows| - 1], matches);
      if matches(last) then of + [last] else of
  }

  function Without(rows: seq<Row>, id: nat): seq<Row> {
    if rows == [] then []
    else
      var last := rows[|rows| - 1];
      Without(rows[..|rows| - 1], id) + if last.id == id then [] else [last]
  }

  function Patched(rows: seq<Row>, id: nat, patch: Extras): (patched: seq<Row>)
    ensures |patched| == |rows|
  {
    if rows == [] then []
    else
      var last := rows[|rows| - 1];
      Patched(rows[..|rows| - 1], id, patch) + [if last.id == id then last.(extras := last.extras + patch) else last]
  }

  ghost predicate UniqueIds(rows: seq<Row>) {
    forall i, j | 0 <= i < j < |rows| :: rows[i].id != rows[j].id
  }

  ghost predicate IdsBelow(rows: seq<Row>, bound: nat) {
    forall r | r in rows :: r.id < bound
  }

  const PAGE_SIZE := 1000
  const LIST_LIMIT := 100000

  // The adapter's readings of the two filters on the parent key: `matches` of a
  // bare value, which may look for a part of the key, and `among` of `in` with
  // several. Both may accept more rows than asked for.
  class Resource {
    var rows: seq<Row>
    var nextId: nat
    const matches: (Row, string) -> bool
    const among: (Row, seq<string>) -> bool

    ghost predicate Valid()
      reads this
    {
      UniqueIds(rows) && IdsBelow(rows, nextId)
    }

    // Both find the rows whose parent key is a text asked for. They may or may not
    // find a row without a parent key.
    ghost predicate Complete()
      reads this
    {
      && (forall r | r in rows && r.local.Text? :: matches(r, r.local.text))
      && (forall r, parents | r in rows && r.local.Text? && r.local.text in parents :: among(r, parents))
    }

    // A filter for one of these parents finds all rows that read as its rows.
    ghost predicate Finds(parents: set<string>)
      reads this
    {
      forall r, p | r in rows && p in parents && Show(r.local) == p :: matches(r, p)
    }

    constructor (matches: (Row, string) -> bool, among: (Row, seq<string>) -> bool)
      ensures Valid() && rows == [] && nextId == 0 && this.matches == matches && this.among == among
    {
      this.matches, this.among, rows, nextId := matches, among, [], 0;
    }

    function Found(parent: string): seq<Row>
      reads this
    {
      Matching(rows, r => matches(r, parent))
    }

    function FoundIn(parents: seq<string>): seq<Row>
      reads this
    {
      Matching(rows, r => among(r, parents))
    }

    method Find(parent: string, limit: nat, offset: nat) returns (batch: seq<Row>)
      ensures batch == Slice(Found(parent), offset, limit)
    {
      batch := Slice(Found(parent), offset, limit);
    }

    method Delete(id: nat)
      modifies this`rows
      ensures rows == Without(old(rows), id)
    {
      rows := Without(rows, id);
    }

    method Update(id: nat, patch: Extras)
      modifies this`rows
      ensures rows == Patched(old(rows), id, patch)
    {
      rows := Patched(rows, id, patch);
    }

    method Create(local: Cell, foreign: Cell, extras: Extras)
      modifies this`rows, this`nextId
      ensures rows == old(rows) + [Row(old(nextId), local, foreign, extras)] && nextId == old(nextId) + 1
    {
      rows, nextId := rows + [Row(nextId, local, foreign, extras)], nextId + 1;
    }

    // `junctionRowsForParent`: page by page, dropping what the adapter matched
    // too loosely.
    method RowsForParent(parent: string) returns (out: seq<Row>)
      ensures out == RowsOf(Found(parent), parent)
      ensures Finds({parent}) ==> out == RowsOf(rows, parent)
    {
      hide RowsOf, Matching, Found, Finds;
      ghost var found := Found(parent);
      FoundKeepsRows(parent);
      out := [];
      var offset := 0;
      while true
        invariant offset <= |found| && out == RowsOf(found[..offset], parent)
        decreases |found| - offset
      {
        var batch := Find(parent, PAGE_SIZE, offset);
        out := Filtered(batch, parent, out, found, offset);
        if |batch| < PAGE_SIZE {
          assert found[..offset + |batch|] == found;
          break;
        }
        offset := offset + PAGE_SIZE;
      }
    }

    lemma FoundKeepsRows(parent: string)
      ensures RowsOf(Found(parent)[..0], parent) == []
      ensures Finds({parent}) ==> RowsOf(Found(parent), parent) == RowsOf(rows, parent)
    {
      if Finds({parent}) {
        MatchingKeepsRows(rows, r => matches(r, parent), parent);
      }
    }

    // Every parent does, whose identifier is not what `String` makes of a missing
    // or null key.
    lemma OrdinaryParentsAreFound(parents: set<string>)
      requires Complete() && Show(Missing) !in parents && Show(Null) !in parents
      ensures Finds(parents)
    {
    }
  }

  // The inner loop over one page.
  method Filtered(batch: seq<Row>, parent: string, before: seq<Row>, ghost found: seq<Row>, ghost offset: nat)
    returns (out: seq<Row>)
    requires offset + |batch| <= |found| && forall k | 0 <= k < |batch| :: batch[k] == found[offset + k]
    requires before == RowsOf(found[..offset], parent)
    ensures out == RowsOf(found[..offset + |batch|], parent)
  {
    hide RowsOf;
    out := before;
    var k := 0;
    while k < |batch|
      invariant 0 <= k <= |batch| && out == RowsOf(found[..offset + k], parent)
    {
      RowsOfOneMore(found, offset + k, parent);
      if Show(batch[k].local) == parent {
        out := out + [batch[k]];
      }
      k := k + 1;
    }
  }

  lemma RowsOfOneMore(rows: seq<Row>, k: nat, parent: string)
    requires k < |rows|
    ensures RowsOf(rows[..k + 1], parent) == RowsOf(rows[..k], parent) + if Show(rows[k].local) == parent then [rows[k]] else []
  {
    assert rows[..k + 1][..k] == rows[..k];
  }

  function Slice(rows: seq<Row>, offset: nat, limit: nat): (batch: seq<Row>)
    ensures |batch| <= limit
    ensures offset < |rows| ==> |batch| == if offset + limit <= |rows| then limit else |rows| - offset
    ensures forall k | 0 <= k < |batch| :: offset + k < |rows| && batch[k] == rows[offset + k]
  {
    if offset >= |rows| then []
    else if offset + limit <= |rows| then rows[offset..offset + limit]
    else rows[offset..]
  }

  // A filter that accepts a parent's rows loses none of them.
  lemma {:induction false} MatchingKeepsRows(rows: seq<Row>, matches: Row -> bool, parent: string)
    requires forall r | r in rows && Show(r.local) == parent :: matches(r)
    ensures RowsOf(Matching(rows, matches), parent) == RowsOf(rows, parent)
  {
    if rows != [] {
      var last := rows[|rows| - 1];
      var of := Matching(rows[..|rows| - 1], matches);
      MatchingKeepsRows(rows[..|rows| - 1], matches, parent);
      assert (of + [last])[..|of|] == of;
    }
  }
}
