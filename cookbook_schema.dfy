/**
  The cookbook schema: six typed fields, each guarded by a declarative field
  constraint and then by a validator. A cookbook is accepted only when every
  field passes both, so each field's effective rule is the intersection of the
  two. The current year is a parameter (the validator reads the wall clock).
*/
module CookBookSchema {
  import opened Results
  import opened Constraints

  datatype CookBook = CookBook(
    isbn: string,
    title: string,
    author: string,
    publicationYear: int,
    price: real,
    numPages: int)

  /** The schema's fields, in declaration order. */
  datatype Field = Isbn | Title | Author | PublicationYear | Price | NumPages

  const IsbnMessage := "ISBN must be exactly 10 digits"
  const TitleMessage := "Title must be at least 3 characters long"
  const PublicationYearMessage := "Publication year must be between 1900 and current year"
  const PriceMessage := "Price must be a positive number"
  const NumPagesMessage := "Number of pages must be a positive integer"

  // The validators, each a single test on its argument that either rejects
  // with a fixed message or hands the argument back.

  /** `len(isbn) != 10` rejects; nothing else about the text is looked at. */
  function ValidateIsbn(isbn: string): (r: Checked<string>)
    ensures r.Ok? <==> |isbn| == 10
    ensures r.Ok? ==> r.value == isbn
    ensures r.Err? ==> r.error == Rejected(IsbnMessage)
  {
    if |isbn| != 10 then Err(Rejected(IsbnMessage)) else Ok(isbn)
  }

  function ValidateTitle(title: string): (r: Checked<string>)
    ensures r.Ok? <==> |title| >= 3
    ensures r.Ok? ==> r.value == title
    ensures r.Err? ==> r.error == Rejected(TitleMessage)
  {
    if |title| < 3 then Err(Rejected(TitleMessage)) else Ok(title)
  }

  /** The `isinstance(author, str)` test holds of every typed string, so this
      validator never rejects and its message is never given. */
  function ValidateAuthor(author: string): (r: Checked<string>)
    ensures r == Ok(author)
  {
    Ok(author)
  }

  /** Years from 1900 up to and including the current year pass. */
  function ValidatePublicationYear(year: int, currentYear: int): (r: Checked<int>)
    ensures r.Ok? <==> 1900 <= year <= currentYear
    ensures r.Ok? ==> r.value == year
    ensures r.Err? ==> r.error == Rejected(PublicationYearMessage)
  {
    if year < 1900 || year > currentYear then Err(Rejected(PublicationYearMessage)) else Ok(year)
  }

  function ValidatePrice(price: real): (r: Checked<real>)
    ensures r.Ok? <==> price > 0.0
    ensures r.Ok? ==> r.value == price
    ensures r.Err? ==> r.error == Rejected(PriceMessage)
  {
    if price <= 0.0 then Err(Rejected(PriceMessage)) else Ok(price)
  }

  /** The `isinstance(num_pages, int)` half of the test holds of every typed integer. */
  function ValidateNumPages(numPages: int): (r: Checked<int>)
    ensures r.Ok? <==> numPages > 0
    ensures r.Ok? ==> r.value == numPages
    ensures r.Err? ==> r.error == Rejected(NumPagesMessage)
  {
    if numPages <= 0 then Err(Rejected(NumPagesMessage)) else Ok(numPages)
  }

  // Each field: its declarative constraint first, then its validator.

  /** `min_length=10, max_length=10`, then `ValidateIsbn`. Only the length is
      ever looked at, and the validator can no longer reject. */
  function IsbnField(isbn: string): (r: Checked<string>)
    ensures r.Ok? <==> |isbn| == 10
    ensures r.Ok? ==> r.value == isbn
    ensures r.Err? ==> r.error == Violated(if |isbn| < 10 then MinLength(10) else MaxLength(10))
  {
    var v :- CheckMinLength(isbn, 10);
    var w :- CheckMaxLength(v, 10);
    ValidateIsbn(w)
  }

  /** `min_length=1, max_length=50`, then `ValidateTitle`. */
  function TitleField(title: string): (r: Checked<string>)
    ensures r.Ok? <==> 3 <= |title| <= 50
    ensures r.Ok? ==> r.value == title
    ensures r == Err(Violated(MinLength(1))) <==> |title| == 0
    ensures r == Err(Violated(MaxLength(50))) <==> |title| > 50
    ensures r == Err(Rejected(TitleMessage)) <==> 1 <= |title| < 3
  {
    var v :- CheckMinLength(title, 1);
    var w :- CheckMaxLength(v, 50);
    ValidateTitle(w)
  }

  /** `min_length=1, max_length=50`, then `ValidateAuthor`. */
  function AuthorField(author: string): (r: Checked<string>)
    ensures r.Ok? <==> 1 <= |author| <= 50
    ensures r.Ok? ==> r.value == author
    ensures r.Err? ==> r.error == Violated(if |author| == 0 then MinLength(1) else MaxLength(50))
  {
    var v :- CheckMinLength(author, 1);
    var w :- CheckMaxLength(v, 50);
    ValidateAuthor(w)
  }

  /** `gt=0, lt=2024`, then `ValidatePublicationYear`. */
  function PublicationYearField(year: int, currentYear: int): (r: Checked<int>)
    ensures r.Ok? <==> 1900 <= year < 2024 && year <= currentYear
    ensures r.Ok? ==> r.value == year
    ensures r == Err(Violated(Gt(0))) <==> year <= 0
    ensures r == Err(Violated(Lt(2024))) <==> year >= 2024
    ensures r == Err(Rejected(PublicationYearMessage)) <==> 0 < year < 2024 && (year < 1900 || year > currentYear)
  {
    var v :- CheckGt(year, 0);
    var w :- CheckLt(v, 2024);
    ValidatePublicationYear(w, currentYear)
  }

  /** `gt=0.0`, then `ValidatePrice`, which can no longer reject. */
  function PriceField(price: real): (r: Checked<real>)
    ensures r.Ok? <==> price > 0.0
    ensures r.Ok? ==> r.value == price
    ensures r.Err? ==> r.error == Violated(GtReal(0.0))
  {
    var v :- CheckGtReal(price, 0.0);
    ValidatePrice(v)
  }

  /** `gt=0`, then `ValidateNumPages`, which can no longer reject. */
  function NumPagesField(numPages: int): (r: Checked<int>)
    ensures r.Ok? <==> numPages > 0
    ensures r.Ok? ==> r.value == numPages
    ensures r.Err? ==> r.error == Violated(Gt(0))
  {
    var v :- CheckGt(numPages, 0);
    ValidateNumPages(v)
  }

  /** The effective acceptance rule of the whole schema, written out field by field. */
  predicate Accepted(c: CookBook, currentYear: int) {
    && |c.isbn| == 10
    && 3 <= |c.title| <= 50
    && 1 <= |c.author| <= 50
    && 1900 <= c.publicationYear < 2024 && c.publicationYear <= currentYear
    && c.price > 0.0
    && c.numPages > 0
  }

  /** The schema's fields, in declaration order. */
  const Fields: seq<Field> := [Isbn, Title, Author, PublicationYear, Price, NumPages]

  /** Why the given field of a cookbook is refused, if it is. */
  function Refusal(input: CookBook, currentYear: int, field: Field): Option<Reason> {
    match field
    case Isbn => ReasonOf(IsbnField(input.isbn))
    case Title => ReasonOf(TitleField(input.title))
    case Author => ReasonOf(AuthorField(input.author))
    case PublicationYear => ReasonOf(PublicationYearField(input.publicationYear, currentYear))
    case Price => ReasonOf(PriceField(input.price))
    case NumPages => ReasonOf(NumPagesField(input.numPages))
  }

  /** `Refusal` as a function of the field alone. */
  function Refusals(input: CookBook, currentYear: int): Field -> Option<Reason> {
    field => Refusal(input, currentYear, field)
  }

  /** The errors of all refused fields, in declaration order. */
  function Errors(input: CookBook, currentYear: int): seq<FieldError<Field>> {
    Collect(Fields, Refusals(input, currentYear))
  }

  /** Whether a cookbook breaks the effective rule of one field. */
  predicate Breaks(input: CookBook, currentYear: int, field: Field) {
    match field
    case Isbn => |input.isbn| != 10
    case Title => !(3 <= |input.title| <= 50)
    case Author => !(1 <= |input.author| <= 50)
    case PublicationYear => !(1900 <= input.publicationYear < 2024 && input.publicationYear <= currentYear)
    case Price => input.price <= 0.0
    case NumPages => input.numPages <= 0
  }

  /** A cookbook's errors name exactly the fields that break their rule, and
      each error carries the reason that field's check gives. */
  lemma ErrorsNameFailingFields(input: CookBook, currentYear: int, field: Field)
    ensures Reports(Errors(input, currentYear), field) <==> Breaks(input, currentYear, field)
    ensures forall e :: e in Errors(input, currentYear) ==> Refusal(input, currentYear, e.field) == Some(e.reason)
  {
    ErrorsReportBrokenFields(input, currentYear, field);
    ErrorsCarryTheirReasons(input, currentYear);
  }

  /** A field is reported exactly when it breaks its effective rule. */
  lemma ErrorsReportBrokenFields(input: CookBook, currentYear: int, field: Field)
    ensures Reports(Errors(input, currentYear), field) <==> Breaks(input, currentYear, field)
  {
    CollectReports(Fields, Refusals(input, currentYear), field);
    RefusedIffBroken(input, currentYear, field);
  }

  /** A field is refused exactly when it breaks its effective rule. */
  lemma RefusedIffBroken(input: CookBook, currentYear: int, field: Field)
    ensures Refusal(input, currentYear, field).Some? <==> Breaks(input, currentYear, field)
  {
  }

  /** Each error carries the reason its field's check gives. */
  lemma ErrorsCarryTheirReasons(input: CookBook, currentYear: int)
    ensures forall e :: e in Errors(input, currentYear) ==> Refusal(input, currentYear, e.field) == Some(e.reason)
  {
    var refusal := Refusals(input, currentYear);
    var errors := Errors(input, currentYear);
    forall e | e in errors ensures Refusal(input, currentYear, e.field) == Some(e.reason) {
      var i :| 0 <= i < |errors| && errors[i] == e;
      CollectReasons(Fields, refusal, i);
    }
  }

  /** A cookbook has no errors exactly when it satisfies the effective rule. */
  lemma NoErrorsIffAccepted(input: CookBook, currentYear: int)
    ensures Errors(input, currentYear) == [] <==> Accepted(input, currentYear)
  {
    CollectEmpty(Fields, Refusals(input, currentYear));
  }

  /** Validates every field and collects the errors of all refused fields;
      the record is built only when there are none. */
  function Validate(input: CookBook, currentYear: int): (r: Result<CookBook, seq<FieldError<Field>>>)
    ensures r.Ok? <==> Accepted(input, currentYear)
    ensures r.Ok? ==> r.value == input
    ensures r.Err? ==> r.error == Errors(input, currentYear) && r.error != []
  {
    var errors := Errors(input, currentYear);
    NoErrorsIffAccepted(input, currentYear);
    if errors == [] then
      Ok(CookBook(
        IsbnField(input.isbn).value,
        TitleField(input.title).value,
        AuthorField(input.author).value,
        PublicationYearField(input.publicationYear, currentYear).value,
        PriceField(input.price).value,
        NumPagesField(input.numPages).value))
    else
      Err(errors)
  }

  /** Validation hands an accepted cookbook back unchanged, so validating it
      again accepts it again. */
  lemma RevalidationIsIdentity(input: CookBook, currentYear: int)
    requires Validate(input, currentYear).Ok?
    ensures Validate(input, currentYear).value == input
    ensures Validate(Validate(input, currentYear).value, currentYear) == Validate(input, currentYear)
  {
  }

  /** The ISBN's content is never inspected: any ten characters pass, although
      the validator's message speaks of digits. */
  lemma IsbnContentUnchecked(isbn: string)
    requires |isbn| == 10
    ensures IsbnField(isbn) == Ok(isbn)
    ensures IsbnField("ABCDEFGHIJ") == Ok("ABCDEFGHIJ")
  {
  }

  /** Once the current year reaches 2023 the hard-coded `lt=2024` alone caps
      the year: from 2024 on, a cookbook published in the current year is
      refused by the constraint although the validator would accept it. */
  lemma PublicationYearCappedAt2023(year: int, currentYear: int)
    requires currentYear >= 2023
    ensures PublicationYearField(year, currentYear).Ok? <==> 1900 <= year <= 2023
    ensures currentYear >= 2024 ==> PublicationYearField(currentYear, currentYear) == Err(Violated(Lt(2024)))
    ensures ValidatePublicationYear(currentYear, currentYear) == Ok(currentYear)
  {
  }

  /** What is accepted this year is still accepted in a later year. */
  lemma AcceptedInLaterYears(input: CookBook, currentYear: int, laterYear: int)
    requires Accepted(input, currentYear) && currentYear <= laterYear
    ensures Validate(input, laterYear) == Ok(input)
  {
  }
}
