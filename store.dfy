/** One database table keyed by an auto-increment integer id, as the ORM
    presents it to the services: a map from id to the record's columns. */
module Store {
  import opened Results

  /** A row as a query returns it: its id and the record's columns. */
  datatype Row<R> = Row(id: int, fields: R)

  /** `listing` lists `table`: every row it holds is stored under its id with
      those columns, no id appears twice, and every stored id appears. */
  ghost predicate Lists<R>(table: map<int, R>, listing: seq<Row<R>>) {
    && (forall i :: 0 <= i < |listing| ==> listing[i].id in table && table[listing[i].id] == listing[i].fields)
    && (forall i, j :: 0 <= i < j < |listing| ==> listing[i].id != listing[j].id)
    && (forall id :: id in table ==> exists i :: 0 <= i < |listing| && listing[i].id == id)
  }

  /** A listing holds exactly as many rows as the table. */
  lemma {:induction false} ListingHasEveryRowOnce<R>(table: map<int, R>, listing: seq<Row<R>>)
    requires Lists(table, listing)
    ensures |listing| == |table|
  {
    if listing == [] {
      assert forall id :: id !in table;
      assert table.Keys == {};
    } else {
      var n := |listing| - 1;
      var rest := table - {listing[n].id};
      var shorter := listing[..n];
      forall id | id in rest
        ensures exists i :: 0 <= i < |shorter| && shorter[i].id == id
      {
        var i :| 0 <= i < |listing| && listing[i].id == id;
        assert i != n;
        assert shorter[i].id == id;
      }
      assert Lists(rest, shorter);
      ListingHasEveryRowOnce(rest, shorter);
      assert rest.Keys == table.Keys - {listing[n].id};
    }
  }

  /** Two listings of the same table hold the same rows, perhaps in another order. */
  lemma ListingsAgree<R>(table: map<int, R>, a: seq<Row<R>>, b: seq<Row<R>>, i: int)
    requires Lists(table, a) && Lists(table, b) && 0 <= i < |a|
    ensures exists j :: 0 <= j < |b| && b[j] == a[i]
  {
    assert a[i].id in table;
    var j :| 0 <= j < |b| && b[j].id == a[i].id;
    assert b[j] == a[i];
  }

  /** The ids of `listing` increase from each row to the next. */
  predicate Ascending<R>(listing: seq<Row<R>>) {
    forall i, j :: 0 <= i < j < |listing| ==> listing[i].id < listing[j].id
  }

  /** `listing` lists, in ascending order, the rows of `table` whose ids are
      below `bound`. */
  ghost predicate ListsBelow<R>(table: map<int, R>, listing: seq<Row<R>>, bound: int) {
    && Ascending(listing)
    && (forall i :: 0 <= i < |listing| ==> listing[i].id in table && listing[i].id < bound && table[listing[i].id] == listing[i].fields)
    && (forall id :: id in table && id < bound ==> exists i :: 0 <= i < |listing| && listing[i].id == id)
  }

  /** Moving the bound past one id appends that id's row, if it is stored. */
  lemma ListsBelowStep<R>(table: map<int, R>, listing: seq<Row<R>>, bound: int)
    requires ListsBelow(table, listing, bound)
    ensures ListsBelow(table, if bound in table then listing + [Row(bound, table[bound])] else listing, bound + 1)
  {
    if bound in table {
      ListsBelowAppend(table, listing, bound);
    }
  }

  /** Appending the row stored under the bound lists one id more. */
  lemma ListsBelowAppend<R>(table: map<int, R>, listing: seq<Row<R>>, bound: int)
    requires ListsBelow(table, listing, bound) && bound in table
    ensures ListsBelow(table, listing + [Row(bound, table[bound])], bound + 1)
  {
    var longer := listing + [Row(bound, table[bound])];
    assert forall i :: 0 <= i < |listing| ==> longer[i] == listing[i];
    assert longer[|listing|] == Row(bound, table[bound]);
    forall id | id in table && id < bound + 1
      ensures exists i :: 0 <= i < |longer| && longer[i].id == id
    {
      if id == bound {
        assert longer[|listing|].id == id;
      } else {
        var i :| 0 <= i < |listing| && listing[i].id == id;
        assert longer[i].id == id;
      }
    }
  }

  /** Once the bound is past every stored id, the listing lists the table. */
  lemma ListsBelowAll<R>(table: map<int, R>, listing: seq<Row<R>>, bound: int)
    requires ListsBelow(table, listing, bound)
    requires forall id :: id in table ==> id < bound
    ensures Lists(table, listing) && Ascending(listing)
  {
  }

  /** A table: its rows by id, and the id the next insert will receive. */
  class Table<R> {
    var rows: map<int, R>
    var nextId: int

    /** Ids are handed out from 1 on, and every stored id before the next one. */
    ghost predicate Valid()
      reads this
    {
      && 1 <= nextId
      && forall id :: id in rows ==> 1 <= id < nextId
    }

    /** An empty table whose first id is 1. */
    constructor ()
      ensures Valid() && rows == map[] && nextId == 1
    {
      rows := map[];
      nextId := 1;
    }

    /** `SELECT *`: every row of the table, each once, in ascending id order. */
    method Select() returns (listing: seq<Row<R>>)
      requires Valid()
      ensures Lists(rows, listing) && Ascending(listing)
    {
      listing := [];
      var next := 1;
      while next < nextId
        invariant 1 <= next <= nextId
        invariant ListsBelow(rows, listing, next)
      {
        ListsBelowStep(rows, listing, next);
        if next in rows {
          listing := listing + [Row(next, rows[next])];
        }
        next := next + 1;
      }
      ListsBelowAll(rows, listing, nextId);
    }

    /** `SELECT ... WHERE id = ?`: the record stored under `id`, if any. */
    method Get(id: int) returns (found: Option<R>)
      ensures found.Some? <==> id in rows
      ensures found.Some? ==> found.value == rows[id]
    {
      if id in rows {
        found := Some(rows[id]);
      } else {
        found := None;
      }
    }

    /** `INSERT`: stores the record under a fresh id and returns that id. */
    method Insert(fields: R) returns (id: int)
      requires Valid()
      modifies this
      ensures Valid()
      ensures id !in old(rows) && rows == old(rows)[id := fields]
    {
      id := nextId;
      rows := rows[id := fields];
      nextId := nextId + 1;
    }

    /** `UPDATE ... WHERE id = ?`: replaces the record stored under `id`; a
        missing id matches no row and changes nothing. */
    method UpdateWhere(id: int, fields: R)
      requires Valid()
      modifies this`rows
      ensures Valid()
      ensures rows == if id in old(rows) then old(rows)[id := fields] else old(rows)
    {
      if id in rows {
        rows := rows[id := fields];
      }
    }

    /** `DELETE ... WHERE id = ?`: removes the row stored under `id`, if any. */
    method DeleteWhere(id: int)
      requires Valid()
      modifies this`rows
      ensures Valid()
      ensures rows == old(rows) - {id}
    {
      rows := rows - {id};
    }
  }
}
