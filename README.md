# Airplane and cookbook API: schemas and CRUD services

This project is a Dafny model of the core of a small REST API with two
entities. Airplanes have a model, manufacture year, seats, airline, maximum
speed and weight. Cookbooks have an ISBN, title, author, publication year,
price and page count. The model covers two parts.

- **The request schemas.** `CookBookSchema` and `AirplaneSchema` check each
  field twice. First comes the field's declarative constraint: a length bound,
  a numeric bound or positivity. Then comes the field's validator, a single
  test that either rejects with a fixed message or returns its argument. The
  airplane schema strips surrounding whitespace from its strings before any
  length check and keeps the stripped strings. A record is accepted only when
  every field passes both checks. Otherwise every refused field is reported,
  in declaration order, with the reason its first failing check gives.
- **The services.** Each service runs over one table of rows keyed by an
  auto-increment id. There are three near-identical service files: one
  airplane service and two cookbook services. Each file offers five
  operations:
  - list all rows;
  - fetch one row by id, or raise a 404 with a fixed detail;
  - insert a validated record;
  - replace a row;
  - delete a row.

  Replace and delete first check that the id exists. If it does not, they
  raise the 404 before anything changes.

Modules:

- `Results` holds the `Result` and `Option` wrappers.
- `Constraints` holds the declarative field checks and the collection of
  field errors.
- `Whitespace` holds Python's `str.strip` on the `str.isspace` characters,
  with a reference definition it is proved to meet.
- `CookBookSchema` and `AirplaneSchema` hold the schemas.
- `Store` holds the table: the class `Table<R>`, with the row map it updates
  in place and the `SELECT`, `INSERT`, `UPDATE` and `DELETE` statements the
  services issue.
- `Crud` holds the service pattern shared by all three service files,
  generic in the record type.
- `AirplaneService`, `CookbookService` and `AppCookbookService` each
  instantiate `Crud` for one service file, with that file's messages.

Two behaviours of the code are worth noting.

- The cookbook publication year accepts the current year itself: the
  validator's rejecting test is `publication_year > current_year`
  (FastAPI/app/schemas/cookbook.py:98). The field constraint `lt=2024` also
  caps the year below 2024.
- The ISBN validator's message says "digits", but only the length is checked
  (FastAPI/app/schemas/cookbook.py:46-47).

The field checks follow pydantic v1. In the airplane schema alone, strings are
first stripped of surrounding whitespace (the v1 configuration key
`anystr_strip_whitespace`, app/schemas/airplane.py:21-25); the cookbook schema
has no such configuration. In both schemas a string is then checked against
`min_length` and then `max_length`, `gt` is checked before `lt`, and a field's
`@validator` runs only when its declarative constraint passed.

## Model

| member | source | states |
|---|---|---|
| Constraints.CheckMinLength | FastAPI/app/schemas/cookbook.py:26-28 | `min_length=n` accepts a string exactly when it has at least n characters and hands it back unchanged; otherwise it reports `MinLength(n)` |
| Constraints.CheckMaxLength | app/schemas/airplane.py:14 | `max_length=n` accepts exactly the strings of at most n characters; otherwise it reports `MaxLength(n)` |
| Constraints.CheckGt | app/schemas/airplane.py:15-16 | `gt=b` accepts exactly the integers above b; otherwise it reports `Gt(b)` |
| Constraints.CheckLt | app/schemas/airplane.py:15 | `lt=b` accepts exactly the integers below b; otherwise it reports `Lt(b)` |
| Constraints.CheckGtReal | app/schemas/airplane.py:18-19 | `gt=0` on a float field accepts exactly the values above the bound |
| Constraints.Collect | FastAPI/app/schemas/cookbook.py:12-31 | the errors of a record hold at most one entry per checked field; order, per-field counts and reasons are stated by the lemmas below |
| Constraints.FieldNames | FastAPI/app/schemas/cookbook.py:12-31 | the fields named by a list of errors: one per error, the i-th being the i-th error's field |
| Constraints.CollectReports | FastAPI/app/schemas/cookbook.py:12-31 | a field is reported exactly when it is one of the schema's fields and is refused |
| Constraints.CollectReasons | FastAPI/app/schemas/cookbook.py:12-31 | each reported error carries the reason its own field's check gave |
| Constraints.CollectAppend | FastAPI/app/schemas/cookbook.py:12-31 | the errors of two consecutive groups of fields are the first group's followed by the second's, so errors come in field order |
| Constraints.CollectReportsOnce | FastAPI/app/schemas/cookbook.py:12-31 | when no field is checked twice, no two errors name the same field; with `CollectReports`, each refused field is reported exactly once and each other field never |
| Constraints.CollectFieldsFrom | FastAPI/app/schemas/cookbook.py:12-31 | every collected error names one of the checked fields |
| Constraints.CollectEmpty | FastAPI/app/schemas/cookbook.py:12-31 | no errors at all exactly when no field is refused |
| Constraints.CollectSingle | FastAPI/app/schemas/cookbook.py:12-31 | when a field that is checked once is refused and no other field is, the errors are that field's error alone |
| Whitespace.TrimStart | app/schemas/airplane.py:21-25 | removing leading whitespace leaves a suffix of the string that is empty or starts with a non-space |
| Whitespace.TrimStartCutsSpace | app/schemas/airplane.py:21-25 | everything removed in front is whitespace |
| Whitespace.TrimEnd | app/schemas/airplane.py:21-25 | removing trailing whitespace leaves a prefix that is empty or ends with a non-space |
| Whitespace.TrimEndCutsSpace | app/schemas/airplane.py:21-25 | everything removed at the back is whitespace |
| Whitespace.Strip | app/schemas/airplane.py:21-25 | the stripped string is no longer than the input and has no whitespace at either end |
| Whitespace.StripMeetsReference | app/schemas/airplane.py:21-25 | stripping cuts a whitespace prefix and a whitespace suffix and leaves no outer whitespace |
| Whitespace.StripIsUnique | app/schemas/airplane.py:21-25 | any such cut equals `Strip`: the reference definition determines the result |
| Whitespace.StripFixedPoint | app/schemas/airplane.py:21-25 | a string is left unchanged by stripping exactly when it has no outer whitespace |
| Whitespace.StripIdempotent | app/schemas/airplane.py:21-25 | stripping twice is stripping once |
| CookBookSchema.ValidateIsbn | FastAPI/app/schemas/cookbook.py:33-48 | the ISBN validator accepts exactly the 10-character strings, returning them unchanged, and otherwise rejects with "ISBN must be exactly 10 digits" |
| CookBookSchema.ValidateTitle | FastAPI/app/schemas/cookbook.py:50-65 | the title validator accepts exactly the titles of at least 3 characters, unchanged, and otherwise rejects with "Title must be at least 3 characters long" |
| CookBookSchema.ValidateAuthor | FastAPI/app/schemas/cookbook.py:67-82 | the author validator accepts every typed string unchanged |
| CookBookSchema.ValidatePublicationYear | FastAPI/app/schemas/cookbook.py:84-100 | the year validator accepts exactly the years from 1900 to the current year inclusive, unchanged, and otherwise rejects with "Publication year must be between 1900 and current year" |
| CookBookSchema.ValidatePrice | FastAPI/app/schemas/cookbook.py:102-117 | the price validator accepts exactly the positive prices, unchanged, and otherwise rejects with "Price must be a positive number" |
| CookBookSchema.ValidateNumPages | FastAPI/app/schemas/cookbook.py:119-134 | the page-count validator accepts exactly the positive counts, unchanged, and otherwise rejects with "Number of pages must be a positive integer" |
| CookBookSchema.IsbnField | FastAPI/app/schemas/cookbook.py:26-48 | an ISBN is accepted exactly when it has 10 characters; a shorter one reports `MinLength(10)` and a longer one `MaxLength(10)`, so the validator can never reject |
| CookBookSchema.TitleField | FastAPI/app/schemas/cookbook.py:27-65 | a title is accepted exactly when 3 ≤ length ≤ 50; an empty title reports `MinLength(1)`, an overlong one `MaxLength(50)`, and lengths 1 and 2 the validator's message |
| CookBookSchema.AuthorField | FastAPI/app/schemas/cookbook.py:28-82 | an author is accepted exactly when 1 ≤ length ≤ 50; every refusal comes from the length constraints, never from the validator |
| CookBookSchema.PublicationYearField | FastAPI/app/schemas/cookbook.py:29-100 | a year is accepted exactly when 1900 ≤ year < 2024 and year ≤ the current year; it states which check refuses each other year |
| CookBookSchema.PriceField | FastAPI/app/schemas/cookbook.py:30-117 | a price is accepted exactly when it is positive; only `gt=0.0` can refuse it |
| CookBookSchema.NumPagesField | FastAPI/app/schemas/cookbook.py:31-134 | a page count is accepted exactly when it is positive; only `gt=0` can refuse it |
| CookBookSchema.ErrorsNameFailingFields | FastAPI/app/schemas/cookbook.py:12-31 | a cookbook's errors name exactly the fields that break their effective rule, each with its own check's reason |
| CookBookSchema.ErrorsReportBrokenFields | FastAPI/app/schemas/cookbook.py:12-31 | a field is reported exactly when it breaks its effective rule |
| CookBookSchema.ErrorsCarryTheirReasons | FastAPI/app/schemas/cookbook.py:12-134 | every error carries the reason its own field's check gives |
| CookBookSchema.RefusedIffBroken | FastAPI/app/schemas/cookbook.py:26-134 | a field is refused exactly when it breaks its effective rule |
| CookBookSchema.NoErrorsIffAccepted | FastAPI/app/schemas/cookbook.py:12-31 | a cookbook has no errors exactly when all six effective rules hold |
| CookBookSchema.Validate | FastAPI/app/schemas/cookbook.py:12-134 | a cookbook is accepted exactly when every field passes both its constraint and its validator; it is then returned unchanged, and otherwise the non-empty errors of all refused fields are returned |
| CookBookSchema.RevalidationIsIdentity | FastAPI/app/schemas/cookbook.py:48-134 | validating an accepted cookbook again gives the same result |
| CookBookSchema.IsbnContentUnchecked | FastAPI/app/schemas/cookbook.py:26-48 | every 10-character ISBN passes, letters included, although the message speaks of digits |
| CookBookSchema.PublicationYearCappedAt2023 | FastAPI/app/schemas/cookbook.py:29-100 | from 2023 on the accepted years are exactly 1900..2023; from 2024 on a cookbook of the current year is refused by `lt=2024` although the validator would accept it |
| CookBookSchema.AcceptedInLaterYears | FastAPI/app/schemas/cookbook.py:97-100 | a cookbook accepted in one year is accepted unchanged in every later year |
| AirplaneSchema.ValidateModelLength | app/schemas/airplane.py:27-43 | the model validator accepts exactly the names of at least 3 characters, unchanged, and otherwise rejects with "Model name must have at least 3 characters" |
| AirplaneSchema.ValidateManufactureYear | app/schemas/airplane.py:45-62 | the year validator accepts exactly the years up to the current year, unchanged, and otherwise rejects with "Manufacture year cannot be in the future" |
| AirplaneSchema.ValidateSeats | app/schemas/airplane.py:64-80 | the seats validator accepts exactly the even counts, unchanged, and otherwise rejects with "Number of seats must be an even number" |
| AirplaneSchema.ValidateAirlineLength | app/schemas/airplane.py:82-98 | the airline validator accepts exactly the names of at least 5 characters, unchanged, and otherwise rejects with "Airline name must have at least 5 characters" |
| AirplaneSchema.ModelField | app/schemas/airplane.py:14-43 | a model is accepted exactly when its stripped length is 3..50, and the stripped string is kept; an overlong one reports `MaxLength(50)`, a short one the validator's message |
| AirplaneSchema.ManufactureYearField | app/schemas/airplane.py:15-62 | a year is accepted exactly when 1900 < year < 2024 and year ≤ the current year; it states which check refuses each other year |
| AirplaneSchema.SeatsField | app/schemas/airplane.py:16-80 | seats are accepted exactly when positive and even; a non-positive count reports `Gt(0)`, an odd positive one "Number of seats must be an even number" |
| AirplaneSchema.AirlineField | app/schemas/airplane.py:17-98 | an airline is accepted exactly when its stripped length is 5..50, and the stripped string is kept |
| AirplaneSchema.MaxSpeedField | app/schemas/airplane.py:18 | the maximum speed is accepted exactly when positive |
| AirplaneSchema.WeightField | app/schemas/airplane.py:19 | the weight is accepted exactly when positive |
| AirplaneSchema.ErrorsNameFailingFields | app/schemas/airplane.py:9-98 | an airplane's errors name exactly the fields that break their effective rule, each with its own check's reason |
| AirplaneSchema.ErrorsReportBrokenFields | app/schemas/airplane.py:9-98 | a field is reported exactly when it breaks its effective rule |
| AirplaneSchema.ErrorsCarryTheirReasons | app/schemas/airplane.py:9-98 | every error carries the reason its own field's check gives |
| AirplaneSchema.NoErrorsIffAccepted | app/schemas/airplane.py:9-98 | an airplane has no errors exactly when all six effective rules hold |
| AirplaneSchema.EveryFieldPassesIffAccepted | app/schemas/airplane.py:9-98 | every field passes exactly when the airplane meets the whole effective rule |
| AirplaneSchema.AcceptedIffNoFieldBroken | app/schemas/airplane.py:14-19 | the whole rule is the conjunction of the six field rules |
| AirplaneSchema.RefusedIffBroken | app/schemas/airplane.py:14-98 | a field is refused exactly when it breaks its effective rule |
| AirplaneSchema.Validate | app/schemas/airplane.py:9-98 | an airplane is accepted exactly when every field passes; the kept record is the input with both strings stripped, so neither has outer whitespace; otherwise the non-empty errors of all refused fields are returned |
| AirplaneSchema.RevalidationIsIdempotent | app/schemas/airplane.py:21-25 | validating an accepted airplane's result again gives the same result |
| AirplaneSchema.NormalizedIsStable | app/schemas/airplane.py:21-25 | stripping the record's strings twice is stripping them once, and it keeps an accepted airplane accepted |
| AirplaneSchema.SeatParityDecides | app/schemas/airplane.py:16-80 | when every other field holds, an even positive seat count is accepted and an odd one is refused for the seats alone, with the seats message |
| AirplaneSchema.OddSeatsAloneRefused | app/schemas/airplane.py:78-80 | with an odd positive seat count and no other field refused, the errors are exactly the one seats error |
| AirplaneSchema.OtherFieldsPass | app/schemas/airplane.py:14-19 | when every other field keeps its rule, no field but the seats is refused |
| AirplaneSchema.SeatsRefused | app/schemas/airplane.py:78-80 | an odd positive seat count is refused with "Number of seats must be an even number" |
| AirplaneSchema.ExampleKeepsOtherRules | app/schemas/airplane.py:14-19 | the sample airplane `Boeing747` meets every rule but the seats' from 1990 on |
| AirplaneSchema.SeatParityExample | app/schemas/airplane.py:78-80 | from 1990 on, the sample airplane with any even positive seat count is accepted unchanged, and with any odd one it is refused with exactly the seats message |
| AirplaneSchema.FutureYearRefused | app/schemas/airplane.py:15-62 | a manufacture year after the current year is always refused, with the validator's message while below 2024 |
| Store.Lists | FastAPI/app/services/airplane.py:17 | a listing shows every stored row once, under its id, with its stored columns |
| Store.ListingHasEveryRowOnce | FastAPI/app/services/airplane.py:17 | a listing has exactly as many rows as the table |
| Store.ListingsAgree | FastAPI/app/services/airplane.py:17 | two listings of one table hold the same rows |
| Store.Table.constructor | FastAPI/app/database.py:41 | a new table is empty and hands out ids from 1 |
| Store.Table.Select | FastAPI/app/services/airplane.py:17 | `select().dicts()` lists every row of the table once, in ascending id order, and changes nothing |
| Store.Table.Get | FastAPI/app/services/airplane.py:34 | a lookup by id finds a record exactly when the id is stored, and it is the stored record |
| Store.Table.Insert | FastAPI/app/services/airplane.py:49 | an insert stores the record under an id that was not in use, and changes no other row |
| Store.Table.UpdateWhere | FastAPI/app/services/airplane.py:71 | an update by id replaces that row's columns and keeps its id; an absent id matches nothing and changes nothing |
| Store.Table.DeleteWhere | FastAPI/app/services/airplane.py:93 | a delete by id removes exactly that row, if present |
| Crud.GetAll | FastAPI/app/services/airplane.py:17 | lists every stored row and changes nothing |
| Crud.GetById | FastAPI/app/services/airplane.py:33-36 | the row under the id when it is stored, and otherwise a 404 with the entity's detail |
| Crud.Create | FastAPI/app/services/airplane.py:49 | adds one row, under a fresh id, whose fields are the given record, and nothing else |
| Crud.Update | FastAPI/app/services/airplane.py:66-72 | an absent id gives a 404 and no change; a present id gets all its fields replaced, keeps its id, and the success message is returned |
| Crud.Delete | FastAPI/app/services/airplane.py:88-94 | an absent id gives a 404 and no change; a present id's row alone is removed, and the success message is returned |
| Crud.ListingAfterCreate | FastAPI/app/services/airplane.py:10-49 | after a create the listing has one more row, and the new row is in it |
| Crud.ListingAfterUpdate | FastAPI/app/services/airplane.py:10-72 | after an update the listing has as many rows as before, and the replaced row appears under its old id |
| Crud.ListingAfterDelete | FastAPI/app/services/airplane.py:10-94 | after a delete the listing has one row fewer, and the deleted id is not in it |
| AirplaneService.GetAllAirplanes | FastAPI/app/services/airplane.py:17 | returns every airplane row and changes nothing |
| AirplaneService.GetAirplaneById | FastAPI/app/services/airplane.py:33-36 | returns the stored airplane when the id is present, and otherwise 404 "Airplane not found" |
| AirplaneService.CreateAirplane | FastAPI/app/services/airplane.py:49 | adds one row whose six fields equal the validated input, and nothing else |
| AirplaneService.UpdateAirplane | FastAPI/app/services/airplane.py:66-72 | an absent id gives 404 "Airplane not found" and no change; a present id has all its fields replaced and gives "Airplane updated successfully" |
| AirplaneService.DeleteAirplane | FastAPI/app/services/airplane.py:88-94 | an absent id gives 404 and no change; a present id's row alone is removed, with "Airplane deleted successfully" |
| AirplaneService.LifecycleExample | FastAPI/app/services/airplane.py:17-94 | on a new table a created airplane is the only one listed and can be fetched; after its delete, fetching it gives 404 "Airplane not found" and the listing is empty |
| CookbookService.GetAllCookbooks | fastapi/app/services/cookbook.py:17 | returns every cookbook row and changes nothing |
| CookbookService.GetCookbookById | fastapi/app/services/cookbook.py:33-36 | returns the stored cookbook when the id is present, and otherwise 404 "Cookbook not found" |
| CookbookService.CreateCookbook | fastapi/app/services/cookbook.py:49 | adds one row whose fields equal the validated input, and nothing else |
| CookbookService.UpdateCookbook | fastapi/app/services/cookbook.py:66-72 | an absent id gives 404 "Cookbook not found" and no change; a present id has that row alone replaced, with "Cookbook updated successfully" |
| CookbookService.DeleteCookbook | fastapi/app/services/cookbook.py:88-94 | an absent id gives 404 and no change; a present id's row alone is removed, with "Cookbook deleted successfully" |
| CookbookService.MissingUpdateExample | fastapi/app/services/cookbook.py:66-69 | on a new table an update of any id gives 404 "Cookbook not found" and the table stays empty |
| CookbookService.ReplaceExample | fastapi/app/services/cookbook.py:33-72 | after an update of a created cookbook, fetching its id gives the new fields under the same id |
| AppCookbookService.GetAllCookbooks | app/services/cookbook.py:17 | returns every cookbook row and changes nothing |
| AppCookbookService.GetCookbookById | app/services/cookbook.py:32-35 | returns the stored cookbook when the id is present, and otherwise 404 "Cookbook not found" |
| AppCookbookService.CreateCookbook | app/services/cookbook.py:47 | adds one row equal to the validated input, and nothing else |
| AppCookbookService.UpdateCookbook | app/services/cookbook.py:63-69 | an absent id gives 404 and no change; a present id has that row alone replaced and keeps its id |
| AppCookbookService.DeleteCookbook | app/services/cookbook.py:84-90 | an absent id gives 404 and no change; a present id's row alone is removed |
| AppCookbookService.DeleteThenGet | app/services/cookbook.py:19-90 | a delete followed by a get of the same id: the get gives 404, and every other row is as it was |

## Left out

- The route modules, the `main.py` files and the database connection are left out. Routes only forward to the services. The `main.py` files hold the application lifespan, the redirect to the docs and router mounting. The connection is built from environment variables.
- HTTP and JSON are not modelled. A refused request body is answered with 422 by the framework before any service runs. The model stops at `Validate`'s list of field errors, and the services take the accepted record.
- Pydantic's coercion of loosely typed payloads is not modelled: numeric strings to numbers, floats to integers and the like. The model's records are already typed, so the validators' `isinstance` tests always hold.
- The wall clock is not modelled. The current year, which the validators read with `datetime.now()`, is a parameter.
- `price`, `max_speed` and `weight` are `real`. Floating-point rounding is not modelled; only positivity is checked.
- Concurrency is left out. Each service call is atomic, so the window between the existence check and the `UPDATE` or `DELETE` does not exist here.
- The store's internals are left out: SQL generation and the `DoesNotExist` exception. A lookup is map membership.
- Column limits are not modelled. `seats`, `manufacture_year`, `publication_year` and `num_pages` are `IntegerField` columns (FastAPI/app/database.py:43-44, 81-82), which MySQL stores as signed 32-bit integers, and the string columns have `max_length` bounds. The schemas accept any positive integer, so a count such as 4294967296 seats passes `Validate`. The store would refuse that `INSERT` or `UPDATE` with an error the services do not handle. In the model, `Crud.Create` and `Crud.Update` always succeed.
- `Store.Table.Insert`: the next id is a counter that starts at 1, standing in for MySQL's auto-increment. The contract promises only that the new id was not in use.
- `Store.Table.Select`: the listing comes in ascending id order, which is this model's choice. A `SELECT` without `ORDER BY` promises no order, and `Lists` does not depend on one.
- Chaining the 404 to the lookup error (`from exc`) is not modelled, because it has no observable effect. The two cookbook service files therefore behave identically.
- app/schemas/cookbook.py, whose `CookbookSchema` app/services/cookbook.py imports, is not part of this model. That service is modelled over the `CookBook` record of FastAPI/app/schemas/cookbook.py. app/database.py defines no `Cookbook`, so the table that service imports is modelled after the `Cookbook` model of FastAPI/app/database.py:62-95.
- FastAPI/app/schemas/airplane.py is not part of this model. The airplane service is modelled over the `Airplane` record of app/schemas/airplane.py.
- The fetch operations return the row (id and fields), not the ORM model instance.
