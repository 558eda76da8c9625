/** The cookbook service: the five operations on the `cook_books` table. */
module CookbookService {
  import opened Store
  import opened Crud
  import opened CookBookSchema

  /** The detail of the 404 raised for an unknown cookbook id. */
  const NotFoundDetail := "Cookbook not found"
  /** The message returned by a successful update. */
  const UpdatedMessage := "Cookbook updated successfully"
  /** The message returned by a successful delete. */
  const DeletedMessage := "Cookbook deleted successfully"

  /** The texts this service answers with. */
  const Replies := Texts(NotFoundDetail, UpdatedMessage, DeletedMessage)

  /** Every cookbook row; the table is not changed. */
  method GetAllCookbooks(table: Table<CookBook>) returns (listing: seq<Row<CookBook>>)
    requires table.Valid()
    ensures Lists(table.rows, listing) && Ascending(listing)
  {
    listing := GetAll(table);
  }

  /** The cookbook stored under the id, or a 404 "Cookbook not found". */
  method GetCookbookById(table: Table<CookBook>, cookbookId: int) returns (outcome: Outcome<Row<CookBook>>)
    ensures outcome.Success? <==> cookbookId in table.rows
    ensures outcome.Success? ==> outcome.value == Row(cookbookId, table.rows[cookbookId])
    ensures outcome.HttpError? ==> outcome == HttpError(404, NotFoundDetail)
  {
    outcome := GetById(table, cookbookId, Replies);
  }

  /** Stores the validated cookbook under a fresh id; nothing else changes. */
  method CreateCookbook(table: Table<CookBook>, cookbook: CookBook) returns (created: Row<CookBook>)
    requires table.Valid()
    modifies table
    ensures table.Valid()
    ensures created.fields == cookbook && created.id !in old(table.rows)
    ensures table.rows == old(table.rows)[created.id := cookbook]
  {
    created := Create(table, cookbook);
  }

  /** Replaces every field of the cookbook stored under the id, or answers 404
      and changes nothing. */
  method UpdateCookbook(table: Table<CookBook>, cookbookId: int, cookbook: CookBook) returns (outcome: Outcome<string>)
    requires table.Valid()
    modifies table`rows
    ensures table.Valid()
    ensures cookbookId !in old(table.rows) ==> outcome == HttpError(404, NotFoundDetail) && table.rows == old(table.rows)
    ensures cookbookId in old(table.rows) ==> outcome == Success(UpdatedMessage) && table.rows == old(table.rows)[cookbookId := cookbook]
  {
    outcome := Update(table, cookbookId, cookbook, Replies);
  }

  /** Removes the cookbook stored under the id, or answers 404 and changes nothing. */
  method DeleteCookbook(table: Table<CookBook>, cookbookId: int) returns (outcome: Outcome<string>)
    requires table.Valid()
    modifies table`rows
    ensures table.Valid()
    ensures cookbookId !in old(table.rows) ==> outcome == HttpError(404, NotFoundDetail) && table.rows == old(table.rows)
    ensures cookbookId in old(table.rows) ==> outcome == Success(DeletedMessage) && table.rows == old(table.rows) - {cookbookId}
  {
    outcome := Delete(table, cookbookId, Replies);
  }

  /** On a new table, an update of any id answers 404 "Cookbook not found"
      and leaves the table empty. */
  method MissingUpdateExample(cookbookId: int, cookbook: CookBook) returns (outcome: Outcome<string>, listed: seq<Row<CookBook>>)
    ensures outcome == HttpError(404, NotFoundDetail) && listed == []
  {
    var table := new Table<CookBook>();
    outcome := UpdateCookbook(table, cookbookId, cookbook);
    listed := GetAllCookbooks(table);
    ListingHasEveryRowOnce(table.rows, listed);
  }

  /** On a new table: after an update of a created cookbook, fetching its id
      gives the new fields under the same id. */
  method ReplaceExample(first: CookBook, second: CookBook)
    returns (created: Row<CookBook>, updated: Outcome<string>, fetched: Outcome<Row<CookBook>>)
    ensures created.fields == first && updated == Success(UpdatedMessage)
    ensures fetched == Success(Row(created.id, second))
  {
    var table := new Table<CookBook>();
    created := CreateCookbook(table, first);
    updated := UpdateCookbook(table, created.id, second);
    fetched := GetCookbookById(table, created.id);
  }
}
