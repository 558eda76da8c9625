/** The second copy of the cookbook service, whose 404s are raised without
    chaining the lookup's exception: the same five operations. Its own
    app/database.py defines no `Cookbook`; the table is modelled after the
    `Cookbook` model of FastAPI/app/database.py:62-95. */
module AppCookbookService {
  import opened Store
  import opened Crud
  import opened CookBookSchema

  /** The detail of the 404 raised for an unknown cookbook id. */
  const NotFoundDetail := "Cookbook not found"
  /** The message returned by a successful update. */
  const UpdatedMessage := "Cookbook updated successfully"
  /** The message returned by a successful delete. */
  const DeletedMessage := "Cookbook deleted successfully"

  /** The texts this service answers with. */
  const Replies := Texts(NotFoundDetail, UpdatedMessage, DeletedMessage)

  /** Every cookbook row; the table is not changed. */
  method GetAllCookbooks(table: Table<CookBook>) returns (listing: seq<Row<CookBook>>)
    requires table.Valid()
    ensures Lists(table.rows, listing) && Ascending(listing)
  {
    listing := GetAll(table);
  }

  /** The cookbook stored under the id, or a 404 "Cookbook not found". */
  method GetCookbookById(table: Table<CookBook>, cookbookId: int) returns (outcome: Outcome<Row<CookBook>>)
    ensures outcome.Success? <==> cookbookId in table.rows
    ensures outcome.Success? ==> outcome.value == Row(cookbookId, table.rows[cookbookId])
    ensures outcome.HttpError? ==> outcome == HttpError(404, NotFoundDetail)
  {
    outcome := GetById(table, cookbookId, Replies);
  }

  /** Stores the validated cookbook under a fresh id; nothing else changes. */
  method CreateCookbook(table: Table<CookBook>, cookbook: CookBook) returns (created: Row<CookBook>)
    requires table.Valid()
    modifies table
    ensures table.Valid()
    ensures created.fields == cookbook && created.id !in old(table.rows)
    ensures table.rows == old(table.rows)[created.id := cookbook]
  {
    created := Create(table, cookbook);
  }

  /** Replaces every field of the cookbook stored under the id, or answers 404
      and changes nothing. */
  method UpdateCookbook(table: Table<CookBook>, cookbookId: int, cookbook: CookBook) returns (outcome: Outcome<string>)
    requires table.Valid()
    modifies table`rows
    ensures table.Valid()
    ensures cookbookId !in old(table.rows) ==> outcome == HttpError(404, NotFoundDetail) && table.rows == old(table.rows)
    ensures cookbookId in old(table.rows) ==> outcome == Success(UpdatedMessage) && table.rows == old(table.rows)[cookbookId := cookbook]
  {
    outcome := Update(table, cookbookId, cookbook, Replies);
  }

  /** Removes the cookbook stored under the id, or answers 404 and changes nothing. */
  method DeleteCookbook(table: Table<CookBook>, cookbookId: int) returns (outcome: Outcome<string>)
    requires table.Valid()
    modifies table`rows
    ensures table.Valid()
    ensures cookbookId !in old(table.rows) ==> outcome == HttpError(404, NotFoundDetail) && table.rows == old(table.rows)
    ensures cookbookId in old(table.rows) ==> outcome == Success(DeletedMessage) && table.rows == old(table.rows) - {cookbookId}
  {
    outcome := Delete(table, cookbookId, Replies);
  }

  /** A delete followed by a get of the same id: the get answers 404, and
      every other row is as it was. */
  method DeleteThenGet(table: Table<CookBook>, cookbookId: int)
    returns (deleted: Outcome<string>, fetched: Outcome<Row<CookBook>>)
    requires table.Valid()
    modifies table`rows
    ensures table.Valid()
    ensures deleted == if cookbookId in old(table.rows) then Success(DeletedMessage) else HttpError(404, NotFoundDetail)
    ensures fetched == HttpError(404, NotFoundDetail)
    ensures forall id :: id != cookbookId ==> (id in table.rows <==> id in old(table.rows))
    ensures forall id :: id != cookbookId && id in table.rows ==> table.rows[id] == old(table.rows)[id]
  {
    deleted := DeleteCookbook(table, cookbookId);
    fetched := GetCookbookById(table, cookbookId);
  }
}
