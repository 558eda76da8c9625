/**
  The declarative field constraints of the schema library (`Field(min_length=…,
  max_length=…, gt=…, lt=…)`), and the shape of a field-level validation error.
  A field's constraint is checked before its `@validator` runs; the first check
  that fails decides the field's error.
*/
module Constraints {
  import opened Results

  /** A declarative constraint attached to a field. */
  datatype Constraint =
    | MinLength(min: nat)
    | MaxLength(max: nat)
    | Gt(bound: int)
    | Lt(bound: int)
    | GtReal(realBound: real)

  /** Why a single field was refused: a declarative constraint was violated,
      or a validator raised `ValueError` with the given message. */
  datatype Reason = Violated(constraint: Constraint) | Rejected(message: string)

  /** A refused field of a record; `F` enumerates the schema's fields. */
  datatype FieldError<F> = FieldError(field: F, reason: Reason)

  type Checked<T> = Result<T, Reason>

  function CheckMinLength(s: string, min: nat): (r: Checked<string>)
    ensures r.Ok? <==> min <= |s|
    ensures r.Ok? ==> r.value == s
    ensures r.Err? ==> r.error == Violated(MinLength(min))
  {
    if |s| < min then Err(Violated(MinLength(min))) else Ok(s)
  }

  function CheckMaxLength(s: string, max: nat): (r: Checked<string>)
    ensures r.Ok? <==> |s| <= max
    ensures r.Ok? ==> r.value == s
    ensures r.Err? ==> r.error == Violated(MaxLength(max))
  {
    if |s| > max then Err(Violated(MaxLength(max))) else Ok(s)
  }

  function CheckGt(x: int, bound: int): (r: Checked<int>)
    ensures r.Ok? <==> x > bound
    ensures r.Ok? ==> r.value == x
    ensures r.Err? ==> r.error == Violated(Gt(bound))
  {
    if x <= bound then Err(Violated(Gt(bound))) else Ok(x)
  }

  function CheckLt(x: int, bound: int): (r: Checked<int>)
    ensures r.Ok? <==> x < bound
    ensures r.Ok? ==> r.value == x
    ensures r.Err? ==> r.error == Violated(Lt(bound))
  {
    if x >= bound then Err(Violated(Lt(bound))) else Ok(x)
  }

  function CheckGtReal(x: real, bound: real): (r: Checked<real>)
    ensures r.Ok? <==> x > bound
    ensures r.Ok? ==> r.value == x
    ensures r.Err? ==> r.error == Violated(GtReal(bound))
  {
    if x <= bound then Err(Violated(GtReal(bound))) else Ok(x)
  }

  /** The reason a field check gives when it refuses, if it does. */
  function ReasonOf<T>(r: Checked<T>): (reason: Option<Reason>)
    ensures reason.Some? <==> r.Err?
    ensures r.Err? ==> reason.value == r.error
  {
    if r.Ok? then None else Some(r.error)
  }

  /** Checks every field in order and keeps one error per refused field, as the
      schema library does when it validates a whole record. */
  function Collect<F>(fields: seq<F>, refusal: F -> Option<Reason>): (errors: seq<FieldError<F>>)
    ensures |errors| <= |fields|
  {
    if fields == [] then []
    else
      var head := match refusal(fields[0])
        case None => []
        case Some(reason) => [FieldError(fields[0], reason)];
      head + Collect(fields[1..], refusal)
  }

  /** The fields an error list reports, in its order. */
  function FieldNames<F>(errors: seq<FieldError<F>>): (names: seq<F>)
    ensures |names| == |errors|
    ensures forall i :: 0 <= i < |names| ==> names[i] == errors[i].field
  {
    if errors == [] then [] else [errors[0].field] + FieldNames(errors[1..])
  }

  /** Whether an error list names the given field. */
  predicate Reports<F(==)>(errors: seq<FieldError<F>>, field: F) {
    field in FieldNames(errors)
  }

  lemma {:induction false} FieldNamesAppend<F>(a: seq<FieldError<F>>, b: seq<FieldError<F>>)
    ensures FieldNames(a + b) == FieldNames(a) + FieldNames(b)
  {
    if a == [] {
      assert a + b == b;
    } else {
      assert (a + b)[1..] == a[1..] + b;
      FieldNamesAppend(a[1..], b);
    }
  }

  /** The collected errors report a field exactly when it is one of the checked
      fields and its check refuses it. */
  lemma {:induction false} CollectReports<F>(fields: seq<F>, refusal: F -> Option<Reason>, field: F)
    ensures Reports(Collect(fields, refusal), field) <==> field in fields && refusal(field).Some?
  {
    if fields != [] {
      var head := match refusal(fields[0])
        case None => []
        case Some(reason) => [FieldError(fields[0], reason)];
      FieldNamesAppend(head, Collect(fields[1..], refusal));
      CollectReports(fields[1..], refusal, field);
      assert fields == [fields[0]] + fields[1..];
    }
  }

  /** Every collected error carries the reason its field's check gave. */
  lemma {:induction false} CollectReasons<F>(fields: seq<F>, refusal: F -> Option<Reason>, i: nat)
    requires i < |Collect(fields, refusal)|
    ensures refusal(Collect(fields, refusal)[i].field) == Some(Collect(fields, refusal)[i].reason)
  {
    var rest := Collect(fields[1..], refusal);
    match refusal(fields[0])
    case None =>
      CollectReasons(fields[1..], refusal, i);
    case Some(reason) =>
      if i > 0 {
        CollectReasons(fields[1..], refusal, i - 1);
      }
  }

  /** The errors of consecutive groups of fields are those of each group, in
      the groups' order: an earlier field's error comes before a later one's. */
  lemma {:induction false} CollectAppend<F>(a: seq<F>, b: seq<F>, refusal: F -> Option<Reason>)
    ensures Collect(a + b, refusal) == Collect(a, refusal) + Collect(b, refusal)
  {
    if a == [] {
      assert a + b == b;
    } else {
      var head := HeadErrors(a, refusal);
      assert (a + b)[0] == a[0] && (a + b)[1..] == a[1..] + b;
      var joined := HeadErrors(a + b, refusal);
      assert joined == head;
      calc {
        Collect(a + b, refusal);
        head + Collect(a[1..] + b, refusal);
        { CollectAppend(a[1..], b, refusal); }
        head + (Collect(a[1..], refusal) + Collect(b, refusal));
        { ConcatAssociates(head, Collect(a[1..], refusal), Collect(b, refusal)); }
        (head + Collect(a[1..], refusal)) + Collect(b, refusal);
        Collect(a, refusal) + Collect(b, refusal);
      }
    }
  }

  lemma ConcatAssociates<T>(x: seq<T>, y: seq<T>, z: seq<T>)
    ensures x + (y + z) == (x + y) + z
  {
  }

  /** The error, if any, of the first field alone. */
  function HeadErrors<F>(fields: seq<F>, refusal: F -> Option<Reason>): (errors: seq<FieldError<F>>)
    requires fields != []
    ensures Collect(fields, refusal) == errors + Collect(fields[1..], refusal)
    ensures errors == if refusal(fields[0]).Some? then [FieldError(fields[0], refusal(fields[0]).value)] else []
  {
    match refusal(fields[0])
    case None => []
    case Some(reason) => [FieldError(fields[0], reason)]
  }

  /** When no field is checked twice, no field is reported twice; with
      `CollectReports`, every refused field is reported exactly once. */
  lemma {:induction false} CollectReportsOnce<F>(fields: seq<F>, refusal: F -> Option<Reason>)
    requires forall i, j :: 0 <= i < j < |fields| ==> fields[i] != fields[j]
    ensures forall i, j :: 0 <= i < j < |Collect(fields, refusal)| ==>
              Collect(fields, refusal)[i].field != Collect(fields, refusal)[j].field
  {
    if fields != [] {
      var rest := fields[1..];
      var head := HeadErrors(fields, refusal);
      var tail := Collect(rest, refusal);
      DistinctTail(fields);
      CollectReportsOnce(rest, refusal);
      forall k | 0 <= k < |tail| ensures tail[k].field != fields[0] {
        CollectFieldsFrom(rest, refusal, k);
      }
      var errors := Collect(fields, refusal);
      assert errors == head + tail;
      forall i, j | 0 <= i < j < |errors| ensures errors[i].field != errors[j].field {
        if i < |head| {
          assert errors[i].field == fields[0] && errors[j] == tail[j - |head|];
        } else {
          assert errors[i] == tail[i - |head|] && errors[j] == tail[j - |head|];
        }
      }
    }
  }

  /** Every collected error names one of the checked fields. */
  lemma {:induction false} CollectFieldsFrom<F>(fields: seq<F>, refusal: F -> Option<Reason>, k: nat)
    requires k < |Collect(fields, refusal)|
    ensures Collect(fields, refusal)[k].field in fields
  {
    var head := HeadErrors(fields, refusal);
    if k >= |head| {
      CollectFieldsFrom(fields[1..], refusal, k - |head|);
      var f := Collect(fields[1..], refusal)[k - |head|].field;
      var m :| 0 <= m < |fields| - 1 && fields[1..][m] == f;
      assert fields[m + 1] == f;
    }
  }

  /** The fields after the first of a list without repeats are again without
      repeats, and do not contain the first. */
  lemma DistinctTail<F>(fields: seq<F>)
    requires fields != []
    requires forall i, j :: 0 <= i < j < |fields| ==> fields[i] != fields[j]
    ensures forall i, j :: 0 <= i < j < |fields| - 1 ==> fields[1..][i] != fields[1..][j]
    ensures fields[0] !in fields[1..]
  {
    var rest := fields[1..];
    assert forall i :: 0 <= i < |rest| ==> rest[i] == fields[i + 1];
  }

  /** Nothing is collected exactly when no field is refused. */
  lemma {:induction false} CollectEmpty<F>(fields: seq<F>, refusal: F -> Option<Reason>)
    ensures Collect(fields, refusal) == [] <==> forall f :: f in fields ==> refusal(f).None?
  {
    if fields != [] {
      CollectEmpty(fields[1..], refusal);
      assert fields == [fields[0]] + fields[1..];
    }
  }

  /** When exactly one field is refused, and it is checked only once, the
      collected errors are that field's alone. */
  lemma {:induction false} CollectSingle<F>(fields: seq<F>, refusal: F -> Option<Reason>, k: nat)
    requires k < |fields| && refusal(fields[k]).Some?
    requires fields[k] !in fields[..k] && fields[k] !in fields[k + 1..]
    requires forall f :: f != fields[k] ==> refusal(f).None?
    ensures Collect(fields, refusal) == [FieldError(fields[k], refusal(fields[k]).value)]
  {
    var rest := fields[1..];
    if k == 0 {
      assert forall f :: f in rest ==> refusal(f).None? by {
        assert rest == fields[k + 1..];
      }
      CollectEmpty(rest, refusal);
    } else {
      assert fields[0] in fields[..k];
      assert rest[k - 1] == fields[k];
      assert rest[..k - 1] == fields[1..k];
      assert rest[k..] == fields[k + 1..];
      assert forall f :: f in fields[1..k] ==> f in fields[..k];
      CollectSingle(rest, refusal, k - 1);
    }
  }
}
