/**
  The airplane schema: six typed fields, each guarded by a declarative field
  constraint and then, for four of them, by a validator. The schema's
  configuration strips leading and trailing whitespace from every string field
  before any length check, and the stripped string is what is kept. The current
  year is a parameter (the validator reads the wall clock).
*/
module AirplaneSchema {
  import opened Results
  import opened Constraints
  import opened Whitespace

  datatype Airplane = Airplane(
    model: string,
    manufactureYear: int,
    seats: int,
    airline: string,
    maxSpeed: real,
    weight: real)

  /** The schema's fields. */
  datatype Field = Model | ManufactureYear | Seats | Airline | MaxSpeed | Weight

  const ModelMessage := "Model name must have at least 3 characters"
  const ManufactureYearMessage := "Manufacture year cannot be in the future"
  const SeatsMessage := "Number of seats must be an even number"
  const AirlineMessage := "Airline name must have at least 5 characters"

  // The validators, each a single test on its (already stripped) argument that
  // either rejects with a fixed message or hands the argument back.

  function ValidateModelLength(model: string): (r: Checked<string>)
    ensures r.Ok? <==> |model| >= 3
    ensures r.Ok? ==> r.value == model
    ensures r.Err? ==> r.error == Rejected(ModelMessage)
  {
    if |model| < 3 then Err(Rejected(ModelMessage)) else Ok(model)
  }

  /** Any year up to and including the current year passes. */
  function ValidateManufactureYear(year: int, currentYear: int): (r: Checked<int>)
    ensures r.Ok? <==> year <= currentYear
    ensures r.Ok? ==> r.value == year
    ensures r.Err? ==> r.error == Rejected(ManufactureYearMessage)
  {
    if year > currentYear then Err(Rejected(ManufactureYearMessage)) else Ok(year)
  }

  /** `seats % 2 != 0`: the remainder by 2 is the same under the source's floored
      `%` and Dafny's Euclidean `%`, since the divisor is positive. */
  function ValidateSeats(seats: int): (r: Checked<int>)
    ensures r.Ok? <==> seats % 2 == 0
    ensures r.Ok? ==> r.value == seats
    ensures r.Err? ==> r.error == Rejected(SeatsMessage)
  {
    if seats % 2 != 0 then Err(Rejected(SeatsMessage)) else Ok(seats)
  }

  function ValidateAirlineLength(airline: string): (r: Checked<string>)
    ensures r.Ok? <==> |airline| >= 5
    ensures r.Ok? ==> r.value == airline
    ensures r.Err? ==> r.error == Rejected(AirlineMessage)
  {
    if |airline| < 5 then Err(Rejected(AirlineMessage)) else Ok(airline)
  }

  // Each field: whitespace stripping for strings, its declarative constraint,
  // then its validator.

  /** Strip, `max_length=50`, then `ValidateModelLength`. */
  function ModelField(model: string): (r: Checked<string>)
    ensures r.Ok? <==> 3 <= |Strip(model)| <= 50
    ensures r.Ok? ==> r.value == Strip(model) && NoOuterSpace(r.value)
    ensures r == Err(Violated(MaxLength(50))) <==> |Strip(model)| > 50
    ensures r == Err(Rejected(ModelMessage)) <==> |Strip(model)| < 3
  {
    var v :- CheckMaxLength(Strip(model), 50);
    ValidateModelLength(v)
  }

  /** `gt=1900, lt=2024`, then `ValidateManufactureYear`. */
  function ManufactureYearField(year: int, currentYear: int): (r: Checked<int>)
    ensures r.Ok? <==> 1900 < year < 2024 && year <= currentYear
    ensures r.Ok? ==> r.value == year
    ensures r == Err(Violated(Gt(1900))) <==> year <= 1900
    ensures r == Err(Violated(Lt(2024))) <==> year >= 2024
    ensures r == Err(Rejected(ManufactureYearMessage)) <==> 1900 < year < 2024 && year > currentYear
  {
    var v :- CheckGt(year, 1900);
    var w :- CheckLt(v, 2024);
    ValidateManufactureYear(w, currentYear)
  }

  /** `gt=0`, then `ValidateSeats`. */
  function SeatsField(seats: int): (r: Checked<int>)
    ensures r.Ok? <==> seats > 0 && seats % 2 == 0
    ensures r.Ok? ==> r.value == seats
    ensures r == Err(Violated(Gt(0))) <==> seats <= 0
    ensures r == Err(Rejected(SeatsMessage)) <==> seats > 0 && seats % 2 == 1
  {
    var v :- CheckGt(seats, 0);
    ValidateSeats(v)
  }

  /** Strip, `max_length=50`, then `ValidateAirlineLength`. */
  function AirlineField(airline: string): (r: Checked<string>)
    ensures r.Ok? <==> 5 <= |Strip(airline)| <= 50
    ensures r.Ok? ==> r.value == Strip(airline) && NoOuterSpace(r.value)
    ensures r == Err(Violated(MaxLength(50))) <==> |Strip(airline)| > 50
    ensures r == Err(Rejected(AirlineMessage)) <==> |Strip(airline)| < 5
  {
    var v :- CheckMaxLength(Strip(airline), 50);
    ValidateAirlineLength(v)
  }

  /** `gt=0`; the field has no validator. */
  function MaxSpeedField(maxSpeed: real): (r: Checked<real>)
    ensures r.Ok? <==> maxSpeed > 0.0
    ensures r.Ok? ==> r.value == maxSpeed
    ensures r.Err? ==> r.error == Violated(GtReal(0.0))
  {
    CheckGtReal(maxSpeed, 0.0)
  }

  /** `gt=0`; the field has no validator. */
  function WeightField(weight: real): (r: Checked<real>)
    ensures r.Ok? <==> weight > 0.0
    ensures r.Ok? ==> r.value == weight
    ensures r.Err? ==> r.error == Violated(GtReal(0.0))
  {
    CheckGtReal(weight, 0.0)
  }

  /** The effective acceptance rule of the whole schema, written out field by field. */
  predicate Accepted(a: Airplane, currentYear: int) {
    && 3 <= |Strip(a.model)| <= 50
    && 1900 < a.manufactureYear < 2024 && a.manufactureYear <= currentYear
    && a.seats > 0 && a.seats % 2 == 0
    && 5 <= |Strip(a.airline)| <= 50
    && a.maxSpeed > 0.0
    && a.weight > 0.0
  }

  /** The record an accepted airplane is stored as: its strings stripped. */
  function Normalized(a: Airplane): Airplane {
    a.(model := Strip(a.model), airline := Strip(a.airline))
  }

  const Fields: seq<Field> := [Model, ManufactureYear, Seats, Airline, MaxSpeed, Weight]

  /** Why the given field of an airplane is refused, if it is. */
  function Refusal(input: Airplane, currentYear: int, field: Field): Option<Reason> {
    match field
    case Model => ReasonOf(ModelField(input.model))
    case ManufactureYear => ReasonOf(ManufactureYearField(input.manufactureYear, currentYear))
    case Seats => ReasonOf(SeatsField(input.seats))
    case Airline => ReasonOf(AirlineField(input.airline))
    case MaxSpeed => ReasonOf(MaxSpeedField(input.maxSpeed))
    case Weight => ReasonOf(WeightField(input.weight))
  }

  /** `Refusal` as a function of the field alone. */
  function Refusals(input: Airplane, currentYear: int): Field -> Option<Reason> {
    field => Refusal(input, currentYear, field)
  }

  /** The errors of all refused fields, in declaration order. */
  function Errors(input: Airplane, currentYear: int): seq<FieldError<Field>> {
    Collect(Fields, Refusals(input, currentYear))
  }

  /** Whether an airplane breaks the effective rule of one field. */
  predicate Breaks(input: Airplane, currentYear: int, field: Field) {
    match field
    case Model => !(3 <= |Strip(input.model)| <= 50)
    case ManufactureYear => !(1900 < input.manufactureYear < 2024 && input.manufactureYear <= currentYear)
    case Seats => !(input.seats > 0 && input.seats % 2 == 0)
    case Airline => !(5 <= |Strip(input.airline)| <= 50)
    case MaxSpeed => input.maxSpeed <= 0.0
    case Weight => input.weight <= 0.0
  }

  /** An airplane's errors name exactly the fields that break their rule, and
      each error carries the reason that field's check gives. */
  lemma ErrorsNameFailingFields(input: Airplane, currentYear: int, field: Field)
    ensures Reports(Errors(input, currentYear), field) <==> Breaks(input, currentYear, field)
    ensures forall e :: e in Errors(input, currentYear) ==> Refusal(input, currentYear, e.field) == Some(e.reason)
  {
    ErrorsReportBrokenFields(input, currentYear, field);
    ErrorsCarryTheirReasons(input, currentYear);
  }

  /** A field is reported exactly when it breaks its effective rule. */
  lemma ErrorsReportBrokenFields(input: Airplane, currentYear: int, field: Field)
    ensures Reports(Errors(input, currentYear), field) <==> Breaks(input, currentYear, field)
  {
    CollectReports(Fields, Refusals(input, currentYear), field);
    RefusedIffBroken(input, currentYear, field);
  }

  /** Each error carries the reason its field's check gives. */
  lemma ErrorsCarryTheirReasons(input: Airplane, currentYear: int)
    ensures forall e :: e in Errors(input, currentYear) ==> Refusal(input, currentYear, e.field) == Some(e.reason)
  {
    var refusal := Refusals(input, currentYear);
    var errors := Errors(input, currentYear);
    forall e | e in errors ensures Refusal(input, currentYear, e.field) == Some(e.reason) {
      var i :| 0 <= i < |errors| && errors[i] == e;
      CollectReasons(Fields, refusal, i);
    }
  }

  /** An airplane has no errors exactly when it satisfies the effective rule. */
  lemma NoErrorsIffAccepted(input: Airplane, currentYear: int)
    ensures Errors(input, currentYear) == [] <==> Accepted(input, currentYear)
  {
    CollectEmpty(Fields, Refusals(input, currentYear));
    EveryFieldPassesIffAccepted(input, currentYear);
  }

  lemma EveryFieldPassesIffAccepted(input: Airplane, currentYear: int)
    ensures (forall f :: f in Fields ==> Refusals(input, currentYear)(f).None?) <==> Accepted(input, currentYear)
  {
    var refusal := Refusals(input, currentYear);
    forall f ensures f in Fields && (refusal(f).None? <==> !Breaks(input, currentYear, f)) {
      RefusedIffBroken(input, currentYear, f);
    }
    AcceptedIffNoFieldBroken(input, currentYear);
  }

  lemma AcceptedIffNoFieldBroken(input: Airplane, currentYear: int)
    ensures Accepted(input, currentYear) <==>
      && !Breaks(input, currentYear, Model) && !Breaks(input, currentYear, ManufactureYear)
      && !Breaks(input, currentYear, Seats) && !Breaks(input, currentYear, Airline)
      && !Breaks(input, currentYear, MaxSpeed) && !Breaks(input, currentYear, Weight)
  {
  }

  /** A field is refused exactly when it breaks its effective rule. */
  lemma RefusedIffBroken(input: Airplane, currentYear: int, field: Field)
    ensures Refusal(input, currentYear, field).Some? <==> Breaks(input, currentYear, field)
  {
  }

  /** Validates every field and collects the errors of all refused fields;
      the record, with its strings stripped, is built only when there are none. */
  function Validate(input: Airplane, currentYear: int): (r: Result<Airplane, seq<FieldError<Field>>>)
    ensures r.Ok? <==> Accepted(input, currentYear)
    ensures r.Ok? ==> r.value == Normalized(input)
    ensures r.Ok? ==> NoOuterSpace(r.value.model) && NoOuterSpace(r.value.airline)
    ensures r.Err? ==> r.error == Errors(input, currentYear) && r.error != []
  {
    var errors := Errors(input, currentYear);
    NoErrorsIffAccepted(input, currentYear);
    if errors == [] then
      Ok(Airplane(
        ModelField(input.model).value,
        ManufactureYearField(input.manufactureYear, currentYear).value,
        SeatsField(input.seats).value,
        AirlineField(input.airline).value,
        MaxSpeedField(input.maxSpeed).value,
        WeightField(input.weight).value))
    else
      Err(errors)
  }

  /** An accepted airplane comes back with its strings stripped, and
      validating that result again accepts it unchanged. */
  lemma RevalidationIsIdempotent(input: Airplane, currentYear: int)
    requires Validate(input, currentYear).Ok?
    ensures Validate(Validate(input, currentYear).value, currentYear) == Validate(input, currentYear)
  {
    NormalizedIsStable(input, currentYear);
  }

  /** Normalizing twice is normalizing once, and keeps an airplane accepted. */
  lemma NormalizedIsStable(input: Airplane, currentYear: int)
    ensures Normalized(Normalized(input)) == Normalized(input)
    ensures Accepted(input, currentYear) ==> Accepted(Normalized(input), currentYear)
  {
    var m, l := Strip(input.model), Strip(input.airline);
    StripIdempotent(input.model);
    StripIdempotent(input.airline);
    assert Normalized(input) == input.(model := m, airline := l);
    assert Normalized(Normalized(input)) == input.(model := Strip(m), airline := Strip(l));
  }

  /** Every field other than the seats keeps its effective rule. */
  predicate OthersHold(input: Airplane, currentYear: int) {
    && !Breaks(input, currentYear, Model)
    && !Breaks(input, currentYear, ManufactureYear)
    && !Breaks(input, currentYear, Airline)
    && !Breaks(input, currentYear, MaxSpeed)
    && !Breaks(input, currentYear, Weight)
  }

  /** When every other field keeps its rule, the seat count alone decides:
      an even positive count is accepted, an odd positive count is refused
      for its seats alone, with the seats message. */
  lemma SeatParityDecides(input: Airplane, currentYear: int)
    requires input.seats > 0 && OthersHold(input, currentYear)
    ensures input.seats % 2 == 0 ==> Validate(input, currentYear) == Ok(Normalized(input))
    ensures input.seats % 2 == 1 ==> Validate(input, currentYear) == Err([FieldError(Seats, Rejected(SeatsMessage))])
  {
    if input.seats % 2 == 1 {
      OtherFieldsPass(input, currentYear);
      OddSeatsAloneRefused(input, currentYear);
    } else {
      AcceptedIffNoFieldBroken(input, currentYear);
    }
  }

  /** The errors of an airplane whose seat count is odd and positive, when no
      other field is refused. */
  lemma OddSeatsAloneRefused(input: Airplane, currentYear: int)
    requires input.seats > 0 && input.seats % 2 == 1
    requires forall f :: f != Seats ==> Refusal(input, currentYear, f).None?
    ensures Errors(input, currentYear) == [FieldError(Seats, Rejected(SeatsMessage))]
  {
    assert Fields[2] == Seats;
    assert Fields[..2] == [Model, ManufactureYear] && Fields[3..] == [Airline, MaxSpeed, Weight];
    SeatsRefused(input, currentYear);
    CollectSingle(Fields, Refusals(input, currentYear), 2);
  }

  /** When every other field keeps its rule, no field other than the seats is refused. */
  lemma OtherFieldsPass(input: Airplane, currentYear: int)
    requires OthersHold(input, currentYear)
    ensures forall f :: f != Seats ==> Refusal(input, currentYear, f).None?
  {
    forall f | f != Seats ensures Refusal(input, currentYear, f).None? {
      RefusedIffBroken(input, currentYear, f);
    }
  }

  /** An odd positive seat count is refused with the seats message. */
  lemma SeatsRefused(input: Airplane, currentYear: int)
    requires input.seats > 0 && input.seats % 2 == 1
    ensures Refusal(input, currentYear, Seats) == Some(Rejected(SeatsMessage))
  {
  }

  /** A sample airplane, with a given seat count. */
  function Boeing747(seats: int): Airplane {
    Airplane("Boeing747", 1990, seats, "Delta Air", 900.0, 180000.0)
  }

  /** The sample's model and airline carry no surrounding whitespace. */
  lemma ExampleNamesUnpadded(name: string)
    requires name == "Boeing747" || name == "Delta Air"
    ensures Strip(name) == name && |name| == 9
  {
    assert |name| == 9 && !IsSpace(name[0]) && !IsSpace(name[8]);
    StripFixedPoint(name);
  }

  /** Apart from its seats, the sample airplane keeps every rule from 1990 on. */
  lemma ExampleKeepsOtherRules(seats: int, currentYear: int)
    requires currentYear >= 1990
    ensures OthersHold(Boeing747(seats), currentYear)
  {
    var a := Boeing747(seats);
    ExampleNamesUnpadded(a.model);
    ExampleNamesUnpadded(a.airline);
    OthersHoldByLengths(a, currentYear);
  }

  /** The rules other than the seats' rule, given the lengths of the stripped names. */
  lemma OthersHoldByLengths(a: Airplane, currentYear: int)
    requires |Strip(a.model)| == 9 && |Strip(a.airline)| == 9
    requires a.manufactureYear == 1990 && currentYear >= 1990
    requires a.maxSpeed > 0.0 && a.weight > 0.0
    ensures OthersHold(a, currentYear)
  {
  }

  /** From 1990 on, the sample airplane is accepted unchanged with an even
      positive seat count, and refused for its seats alone with an odd one. */
  lemma SeatParityExample(seats: int, currentYear: int)
    requires seats > 0 && currentYear >= 1990
    ensures seats % 2 == 0 ==> Validate(Boeing747(seats), currentYear) == Ok(Boeing747(seats))
    ensures seats % 2 == 1 ==> Validate(Boeing747(seats), currentYear) == Err([FieldError(Seats, Rejected(SeatsMessage))])
  {
    var a := Boeing747(seats);
    ExampleKeepsOtherRules(seats, currentYear);
    if seats % 2 == 0 {
      SeatParityDecides(a, currentYear);
      ExampleIsNormalized(seats);
    } else {
      SeatParityDecides(a, currentYear);
    }
  }

  /** Stripping leaves the sample airplane as it is. */
  lemma ExampleIsNormalized(seats: int)
    ensures Normalized(Boeing747(seats)) == Boeing747(seats)
  {
    var a := Boeing747(seats);
    ExampleNamesUnpadded(a.model);
    ExampleNamesUnpadded(a.airline);
  }

  /** An airplane built in the future is refused: by the validator while the
      year is below 2024, by the `lt=2024` constraint from then on. */
  lemma FutureYearRefused(year: int, currentYear: int)
    requires year > currentYear
    ensures ManufactureYearField(year, currentYear).Err?
    ensures 1900 < year < 2024 ==> ManufactureYearField(year, currentYear) == Err(Rejected(ManufactureYearMessage))
  {
  }
}
