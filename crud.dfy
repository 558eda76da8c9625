/** The service pattern the airplane and cookbook services share, over one
    table: list every row, look one up by id or answer 404, insert a
    validated record, and replace or remove a row after checking that it
    exists. */
module Crud {
  import opened Store

  /** What a service call hands back: its value, or the HTTP error it raises. */
  datatype Outcome<T> = Success(value: T) | HttpError(status: int, detail: string)

  /** The status of the error raised for an id that matches no row. */
  const NotFoundStatus := 404

  /** The fixed texts of one entity's service: the 404 detail and the two
      success messages. */
  datatype Texts = Texts(notFound: string, updated: string, deleted: string)

  /** Every row of the table; nothing changes. */
  method GetAll<R>(table: Table<R>) returns (listing: seq<Row<R>>)
    requires table.Valid()
    ensures Lists(table.rows, listing) && Ascending(listing)
  {
    listing := table.Select();
  }

  /** The row stored under `id`, or a 404 with the entity's detail. */
  method GetById<R>(table: Table<R>, id: int, texts: Texts) returns (outcome: Outcome<Row<R>>)
    ensures outcome.Success? <==> id in table.rows
    ensures outcome.Success? ==> outcome.value == Row(id, table.rows[id])
    ensures outcome.HttpError? ==> outcome == HttpError(NotFoundStatus, texts.notFound)
  {
    var found := table.Get(id);
    if found.None? {
      return HttpError(NotFoundStatus, texts.notFound);
    }
    return Success(Row(id, found.value));
  }

  /** Inserts the record under a fresh id and returns the new row; no other
      row changes. */
  method Create<R>(table: Table<R>, fields: R) returns (created: Row<R>)
    requires table.Valid()
    modifies table
    ensures table.Valid()
    ensures created.fields == fields && created.id !in old(table.rows)
    ensures table.rows == old(table.rows)[created.id := fields]
  {
    var id := table.Insert(fields);
    created := Row(id, fields);
  }

  /** Replaces every column of the row stored under `id`, which keeps its id;
      an id that matches no row is answered with a 404 before anything changes. */
  method Update<R>(table: Table<R>, id: int, fields: R, texts: Texts) returns (outcome: Outcome<string>)
    requires table.Valid()
    modifies table`rows
    ensures table.Valid()
    ensures id !in old(table.rows) ==> outcome == HttpError(NotFoundStatus, texts.notFound) && table.rows == old(table.rows)
    ensures id in old(table.rows) ==> outcome == Success(texts.updated) && table.rows == old(table.rows)[id := fields]
  {
    var found := table.Get(id);
    if found.None? {
      return HttpError(NotFoundStatus, texts.notFound);
    }
    table.UpdateWhere(id, fields);
    return Success(texts.updated);
  }

  /** Removes the row stored under `id`; an id that matches no row is
      answered with a 404 before anything changes. */
  method Delete<R>(table: Table<R>, id: int, texts: Texts) returns (outcome: Outcome<string>)
    requires table.Valid()
    modifies table`rows
    ensures table.Valid()
    ensures id !in old(table.rows) ==> outcome == HttpError(NotFoundStatus, texts.notFound) && table.rows == old(table.rows)
    ensures id in old(table.rows) ==> outcome == Success(texts.deleted) && table.rows == old(table.rows) - {id}
  {
    var found := table.Get(id);
    if found.None? {
      return HttpError(NotFoundStatus, texts.notFound);
    }
    table.DeleteWhere(id);
    return Success(texts.deleted);
  }

  /** After a create, the listing holds one row more than before, among them
      the new row. */
  lemma ListingAfterCreate<R>(before: map<int, R>, id: int, fields: R, listing: seq<Row<R>>)
    requires id !in before && Lists(before[id := fields], listing)
    ensures |listing| == |before| + 1
    ensures exists i :: 0 <= i < |listing| && listing[i] == Row(id, fields)
  {
    var after := before[id := fields];
    ListingHasEveryRowOnce(after, listing);
    assert after.Keys == before.Keys + {id};
    var i :| 0 <= i < |listing| && listing[i].id == id;
    assert listing[i] == Row(id, fields);
  }

  /** After an update of a stored row, the listing holds as many rows as
      before, the replaced one under its old id. */
  lemma ListingAfterUpdate<R>(before: map<int, R>, id: int, fields: R, listing: seq<Row<R>>)
    requires id in before && Lists(before[id := fields], listing)
    ensures |listing| == |before|
    ensures exists i :: 0 <= i < |listing| && listing[i] == Row(id, fields)
  {
    var after := before[id := fields];
    ListingHasEveryRowOnce(after, listing);
    assert after.Keys == before.Keys;
    var i :| 0 <= i < |listing| && listing[i].id == id;
    assert listing[i] == Row(id, fields);
  }

  /** After a delete of a stored row, the listing holds one row fewer than
      before, and none of them has the deleted id. */
  lemma ListingAfterDelete<R>(before: map<int, R>, id: int, listing: seq<Row<R>>)
    requires id in before && Lists(before - {id}, listing)
    ensures |listing| == |before| - 1
    ensures forall i :: 0 <= i < |listing| ==> listing[i].id != id
  {
    var after := before - {id};
    ListingHasEveryRowOnce(after, listing);
    assert after.Keys == before.Keys - {id};
  }
}
