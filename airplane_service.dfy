/** The airplane service: the five operations on the `airplanes` table. */
module AirplaneService {
  import opened Store
  import opened Crud
  import opened AirplaneSchema

  /** The detail of the 404 raised for an unknown airplane id. */
  const NotFoundDetail := "Airplane not found"
  /** The message returned by a successful update. */
  const UpdatedMessage := "Airplane updated successfully"
  /** The message returned by a successful delete. */
  const DeletedMessage := "Airplane deleted successfully"

  /** The texts this service answers with. */
  const Replies := Texts(NotFoundDetail, UpdatedMessage, DeletedMessage)

  /** Every airplane row; the table is not changed. */
  method GetAllAirplanes(table: Table<Airplane>) returns (listing: seq<Row<Airplane>>)
    requires table.Valid()
    ensures Lists(table.rows, listing) && Ascending(listing)
  {
    listing := GetAll(table);
  }

  /** The airplane stored under the id, or a 404 "Airplane not found". */
  method GetAirplaneById(table: Table<Airplane>, airplaneId: int) returns (outcome: Outcome<Row<Airplane>>)
    ensures outcome.Success? <==> airplaneId in table.rows
    ensures outcome.Success? ==> outcome.value == Row(airplaneId, table.rows[airplaneId])
    ensures outcome.HttpError? ==> outcome == HttpError(404, NotFoundDetail)
  {
    outcome := GetById(table, airplaneId, Replies);
  }

  /** Stores the validated airplane under a fresh id; nothing else changes. */
  method CreateAirplane(table: Table<Airplane>, airplane: Airplane) returns (created: Row<Airplane>)
    requires table.Valid()
    modifies table
    ensures table.Valid()
    ensures created.fields == airplane && created.id !in old(table.rows)
    ensures table.rows == old(table.rows)[created.id := airplane]
  {
    created := Create(table, airplane);
  }

  /** Replaces every field of the airplane stored under the id, or answers 404
      and changes nothing. */
  method UpdateAirplane(table: Table<Airplane>, airplaneId: int, airplane: Airplane) returns (outcome: Outcome<string>)
    requires table.Valid()
    modifies table`rows
    ensures table.Valid()
    ensures airplaneId !in old(table.rows) ==> outcome == HttpError(404, NotFoundDetail) && table.rows == old(table.rows)
    ensures airplaneId in old(table.rows) ==> outcome == Success(UpdatedMessage) && table.rows == old(table.rows)[airplaneId := airplane]
  {
    outcome := Update(table, airplaneId, airplane, Replies);
  }

  /** Removes the airplane stored under the id, or answers 404 and changes nothing. */
  method DeleteAirplane(table: Table<Airplane>, airplaneId: int) returns (outcome: Outcome<string>)
    requires table.Valid()
    modifies table`rows
    ensures table.Valid()
    ensures airplaneId !in old(table.rows) ==> outcome == HttpError(404, NotFoundDetail) && table.rows == old(table.rows)
    ensures airplaneId in old(table.rows) ==> outcome == Success(DeletedMessage) && table.rows == old(table.rows) - {airplaneId}
  {
    outcome := Delete(table, airplaneId, Replies);
  }

  /** On a new table: a created airplane is the only one listed and can be
      fetched; once deleted it is gone, and fetching it again answers 404. */
  method LifecycleExample(airplane: Airplane)
    returns (created: Row<Airplane>, listed: seq<Row<Airplane>>, fetched: Outcome<Row<Airplane>>,
             deleted: Outcome<string>, refetched: Outcome<Row<Airplane>>, relisted: seq<Row<Airplane>>)
    ensures created.fields == airplane
    ensures listed == [created] && fetched == Success(created)
    ensures deleted == Success(DeletedMessage)
    ensures refetched == HttpError(404, NotFoundDetail) && relisted == []
  {
    var table := new Table<Airplane>();
    created := CreateAirplane(table, airplane);
    listed := GetAllAirplanes(table);
    ListingHasEveryRowOnce(table.rows, listed);
    assert listed[0] == created;
    fetched := GetAirplaneById(table, created.id);
    deleted := DeleteAirplane(table, created.id);
    refetched := GetAirplaneById(table, created.id);
    relisted := GetAllAirplanes(table);
    ListingHasEveryRowOnce(table.rows, relisted);
  }
}
