/**
 * ClinicImportService of backend/clinics/services/import_service.py: checking one CSV
 * row, and the tally that `import_clinics` keeps while it walks the file. Reading the
 * file and writing the database are outside the model: a file is the rows that were
 * read plus, perhaps, the failure that stopped the reading, and each row carries the
 * failure, if any, of the create-or-update step it would reach.
 */
module ImportService {
  import opened Wrappers
  import opened ClinicValidators
  import opened Sequences

  /** One CSV row, as `csv.DictReader` yields it: column name to cell text. */
  type Row = map<string, string>

  const RequiredFields: set<string> :=
    {"name", "address", "city", "postal_code", "phone", "email", "website",
     "working_hours", "services"}

  /** The columns that go through a validator, in the order they are checked. */
  const ValidatedFields: seq<string> := ["phone", "working_hours", "services", "postal_code"]

  /**
   * One entry of what `validate_row` returns. The source turns each into a sentence:
   * the missing names joined by ", " (in set iteration order), or the field name and
   * the text of the `ValidationError`.
   */
  datatype RowError = MissingFields(fields: set<string>) | FieldInvalid(field: string, message: string)

  function FieldError(field: string, check: Outcome<string>): (r: seq<RowError>)
    ensures |r| <= 1
    ensures r != [] <==> check.Fail?
    ensures r != [] ==> r == [FieldInvalid(field, check.error)]
    ensures forall e :: e in r ==> Subject(e) == field
  {
    if check.Fail? then [FieldInvalid(field, check.error)] else []
  }

  /** The validator that applies to each validated column. */
  function Validate(field: string, value: string): Outcome<string>
  {
    if field == "phone" then ValidatePhone(value)
    else if field == "working_hours" then ValidateWorkingHours(value)
    else if field == "services" then ValidateServices(value)
    else if field == "postal_code" then ValidatePostalCode(value)
    else Pass
  }

  /** The columns of `RequiredFields` the row lacks. */
  function Missing(row: Row): (m: set<string>)
    ensures m <= RequiredFields
    ensures forall f :: f in m <==> f in RequiredFields && f !in row
  {
    RequiredFields - row.Keys
  }

  /** The outcomes of the validated columns' checks, in checking order. */
  function Checks(row: Row): (c: seq<Outcome<string>>)
    requires forall f :: f in ValidatedFields ==> f in row
    ensures |c| == |ValidatedFields|
  {
    seq(|ValidatedFields|, k requires 0 <= k < |ValidatedFields| =>
      Validate(ValidatedFields[k], row[ValidatedFields[k]]))
  }

  /** The errors of the first `n` of `fields`, whose checks came out as `checks`. */
  function ErrorsFor(fields: seq<string>, checks: seq<Outcome<string>>, n: nat): (r: seq<RowError>)
    requires n <= |fields| == |checks|
    ensures |r| <= n
  {
    if n == 0 then []
    else ErrorsFor(fields, checks, n - 1) + FieldError(fields[n - 1], checks[n - 1])
  }

  lemma ValidatedFieldsPresent(row: Row)
    requires Missing(row) == {}
    ensures forall f :: f in ValidatedFields ==> f in row
  {
    forall f | f in ValidatedFields
      ensures f in row
    {
      assert f in RequiredFields;
    }
  }

  /** The list `validate_row` returns for `row`. */
  function RowErrors(row: Row): seq<RowError>
  {
    if Missing(row) != {} then [MissingFields(Missing(row))]
    else
      ValidatedFieldsPresent(row);
      ErrorsFor(ValidatedFields, Checks(row), |ValidatedFields|)
  }

  /** `validate_row`: collects the errors of one row by appending to a list. */
  method ValidateRow(row: Row) returns (errors: seq<RowError>)
    ensures errors == RowErrors(row)
  {
    errors := [];
    var missing := RequiredFields - row.Keys;
    if missing != {} {
      errors := errors + [MissingFields(missing)];
      return;
    }
    ValidatedFieldsPresent(row);
    ghost var checks := Checks(row);
    var phone := ValidatePhone(row["phone"]);
    assert checks[0] == phone;
    if phone.Fail? {
      errors := errors + [FieldInvalid("phone", phone.error)];
    }
    assert errors == ErrorsFor(ValidatedFields, checks, 1);
    var hours := ValidateWorkingHours(row["working_hours"]);
    assert checks[1] == hours;
    if hours.Fail? {
      errors := errors + [FieldInvalid("working_hours", hours.error)];
    }
    assert errors == ErrorsFor(ValidatedFields, checks, 2);
    var services := ValidateServices(row["services"]);
    assert checks[2] == services;
    if services.Fail? {
      errors := errors + [FieldInvalid("services", services.error)];
    }
    assert errors == ErrorsFor(ValidatedFields, checks, 3);
    var postal := ValidatePostalCode(row["postal_code"]);
    assert checks[3] == postal;
    if postal.Fail? {
      errors := errors + [FieldInvalid("postal_code", postal.error)];
    }
  }

  /** The column an error is about; none for the missing-columns error. */
  function Subject(e: RowError): string
  {
    match e
    case MissingFields(_) => ""
    case FieldInvalid(f, _) => f
  }

  function Subjects(errors: seq<RowError>): (r: seq<string>)
    ensures |r| == |errors|
    ensures forall i :: 0 <= i < |r| ==> r[i] == Subject(errors[i])
  {
    if errors == [] then []
    else Subjects(errors[..|errors| - 1]) + [Subject(errors[|errors| - 1])]
  }

  /** Each error is that of one of the first `n` fields whose check failed, with its message. */
  lemma {:induction false} ErrorsAreFailures(fields: seq<string>, checks: seq<Outcome<string>>, n: nat)
    requires n <= |fields| == |checks|
    ensures forall e :: e in ErrorsFor(fields, checks, n) ==>
      exists k :: 0 <= k < n && checks[k].Fail? && e == FieldInvalid(fields[k], checks[k].error)
  {
    if n > 0 {
      ErrorsAreFailures(fields, checks, n - 1);
    }
  }

  /** Each of the first `n` fields whose check fails has its error. */
  lemma {:induction false} FailuresReported(fields: seq<string>, checks: seq<Outcome<string>>, n: nat, k: nat)
    requires n <= |fields| == |checks|
    requires k < n && checks[k].Fail?
    ensures FieldInvalid(fields[k], checks[k].error) in ErrorsFor(fields, checks, n)
  {
    if k < n - 1 {
      FailuresReported(fields, checks, n - 1, k);
    }
  }

  /** The first `n` fields whose check fails, in checking order. */
  function Failing(fields: seq<string>, checks: seq<Outcome<string>>, n: nat): (r: seq<string>)
    requires n <= |fields| == |checks|
  {
    if n == 0 then []
    else Failing(fields, checks, n - 1) + (if checks[n - 1].Fail? then [fields[n - 1]] else [])
  }

  /** The errors name exactly the failing fields, in checking order. */
  lemma {:induction false} ErrorSubjects(fields: seq<string>, checks: seq<Outcome<string>>, n: nat)
    requires n <= |fields| == |checks|
    ensures Subjects(ErrorsFor(fields, checks, n)) == Failing(fields, checks, n)
  {
    if n > 0 {
      ErrorSubjects(fields, checks, n - 1);
      var prev := ErrorsFor(fields, checks, n - 1);
      if checks[n - 1].Fail? {
        var e := FieldInvalid(fields[n - 1], checks[n - 1].error);
        assert ErrorsFor(fields, checks, n) == prev + [e];
        SubjectsSnoc(prev, e);
        assert Failing(fields, checks, n) == Failing(fields, checks, n - 1) + [fields[n - 1]];
      } else {
        assert ErrorsFor(fields, checks, n) == prev;
        assert Failing(fields, checks, n) == Failing(fields, checks, n - 1);
      }
    }
  }

  /** The failing fields keep the order of `fields`. */
  lemma {:induction false} FailingInOrder(fields: seq<string>, checks: seq<Outcome<string>>, n: nat)
    requires n <= |fields| == |checks|
    ensures Subsequence(Failing(fields, checks, n), fields[..n])
  {
    if n > 0 {
      FailingInOrder(fields, checks, n - 1);
      var prev := Failing(fields, checks, n - 1);
      assert fields[..n] == fields[..n - 1] + [fields[n - 1]];
      SubsequenceExtend(prev, fields[..n - 1], fields[n - 1]);
      assert prev + [] == prev;
    } else {
      assert fields[..0] == [];
    }
  }

  /** The errors name their fields in the order the fields are checked. */
  lemma ErrorsInOrder(fields: seq<string>, checks: seq<Outcome<string>>, n: nat)
    requires n <= |fields| == |checks|
    ensures Subsequence(Subjects(ErrorsFor(fields, checks, n)), fields[..n])
  {
    ErrorSubjects(fields, checks, n);
    FailingInOrder(fields, checks, n);
  }

  lemma SubjectsSnoc(errors: seq<RowError>, e: RowError)
    ensures Subjects(errors + [e]) == Subjects(errors) + [Subject(e)]
  {
    assert (errors + [e])[..|errors|] == errors;
  }

  /** A row lacking a required column gets one error naming all the missing columns, and nothing else. */
  lemma MissingFieldsStopValidation(row: Row)
    requires exists f :: f in RequiredFields && f !in row
    ensures RowErrors(row) == [MissingFields(Missing(row))]
    ensures Missing(row) != {}
  {
    var f :| f in RequiredFields && f !in row;
    assert f in Missing(row);
  }

  /**
   * A complete row gets at most four errors, one per failing validator of phone,
   * working_hours, services and postal_code, with its message, in that order.
   */
  lemma CompleteRowErrors(row: Row)
    requires Missing(row) == {}
    ensures |RowErrors(row)| <= 4
    ensures forall e :: e in RowErrors(row) ==>
      e.FieldInvalid? && e.field in ValidatedFields && e.field in row &&
      Validate(e.field, row[e.field]) == Fail(e.message)
    ensures forall k :: 0 <= k < 4 ==> (ValidatedFields[k] in row &&
      (Validate(ValidatedFields[k], row[ValidatedFields[k]]).Fail? ==>
       FieldInvalid(ValidatedFields[k], Validate(ValidatedFields[k], row[ValidatedFields[k]]).error) in RowErrors(row)))
    ensures Subsequence(Subjects(RowErrors(row)), ValidatedFields)
  {
    ValidatedFieldsPresent(row);
    var n, checks := |ValidatedFields|, Checks(row);
    assert ValidatedFields[..n] == ValidatedFields;
    assert forall k :: 0 <= k < n ==> checks[k] == Validate(ValidatedFields[k], row[ValidatedFields[k]]);
    ErrorsAreFailures(ValidatedFields, checks, n);
    forall k | 0 <= k < 4 && checks[k].Fail?
      ensures FieldInvalid(ValidatedFields[k], checks[k].error) in RowErrors(row)
    {
      FailuresReported(ValidatedFields, checks, n, k);
    }
    ErrorsInOrder(ValidatedFields, checks, n);
  }

  /**
   * A row is clean iff it has every required column and the four validators pass;
   * email and website are only required to be present.
   */
  lemma CleanRowIffValid(row: Row)
    ensures RowErrors(row) == [] <==>
      RequiredFields <= row.Keys &&
      forall f :: f in ValidatedFields ==> f in row && Validate(f, row[f]).Pass?
  {
    if RequiredFields <= row.Keys {
      assert Missing(row) == {};
      CompleteRowErrors(row);
      if RowErrors(row) != [] {
        assert RowErrors(row)[0] in RowErrors(row);
      }
      forall f | f in ValidatedFields && Validate(f, row[f]).Fail?
        ensures RowErrors(row) != []
      {
        var k :| 0 <= k < 4 && ValidatedFields[k] == f;
      }
    } else {
      var f :| f in RequiredFields && f !in row;
      assert f in Missing(row);
    }
  }

  // ----- import_clinics -----

  /** A data row of the file, and the exception, if any, its create-or-update step raises. */
  datatype CsvRow = CsvRow(fields: Row, saveError: Option<string>)

  /** The rows read, and the exception, if any, that ended the reading after them. */
  datatype CsvFile = CsvFile(rows: seq<CsvRow>, readError: Option<string>)

  /** What a details entry lists: the validation errors, or the text of the exception. */
  datatype ImportError =
    | Invalid(error: RowError)
    | SaveFailed(message: string)
    | ReadFailed(message: string)

  datatype Detail = Detail(row: nat, clinic: string, errors: seq<ImportError>)

  datatype ImportResult = ImportResult(success: nat, errors: nat, skipped: nat, details: seq<Detail>)

  /** `row.get('name', 'Unknown')`. */
  function ClinicLabel(row: Row): string
  {
    if "name" in row then row["name"] else "Unknown"
  }

  function AsImportErrors(errors: seq<RowError>): (r: seq<ImportError>)
    ensures |r| == |errors|
    ensures forall i :: 0 <= i < |r| ==> r[i] == Invalid(errors[i])
  {
    if errors == [] then []
    else [Invalid(errors[0])] + AsImportErrors(errors[1..])
  }

  /** A row is saved iff it is clean and its create-or-update step does not raise. */
  predicate Saved(r: CsvRow)
  {
    RowErrors(r.fields) == [] && r.saveError.None?
  }

  /** The details entry, if any, that the row numbered `number` contributes. */
  function RowDetail(r: CsvRow, number: nat): (d: seq<Detail>)
    ensures |d| <= 1
    ensures d == [] <==> Saved(r)
    ensures d != [] ==> d[0].row == number && d[0].clinic == ClinicLabel(r.fields)
  {
    var errors := RowErrors(r.fields);
    if errors != [] then [Detail(number, ClinicLabel(r.fields), AsImportErrors(errors))]
    else if r.saveError.Some? then [Detail(number, ClinicLabel(r.fields), [SaveFailed(r.saveError.value)])]
    else []
  }

  /** How many of `rows` are saved. */
  function SuccessCount(rows: seq<CsvRow>): (n: nat)
    ensures n <= |rows|
  {
    if rows == [] then 0
    else SuccessCount(rows[..|rows| - 1]) + (if Saved(rows[|rows| - 1]) then 1 else 0)
  }

  /** The details entries of `rows`, the first row being number 1. */
  function Details(rows: seq<CsvRow>): seq<Detail>
  {
    if rows == [] then []
    else Details(rows[..|rows| - 1]) + RowDetail(rows[|rows| - 1], |rows|)
  }

  /** The entry a failed read adds at the end. */
  function ReadDetail(file: CsvFile): (d: seq<Detail>)
    ensures file.readError.None? ==> d == []
    ensures file.readError.Some? ==> d == [Detail(0, "File", [ReadFailed(file.readError.value)])]
  {
    match file.readError
    case None => []
    case Some(msg) => [Detail(0, "File", [ReadFailed(msg)])]
  }

  /** `import_clinics`, with the file already read into `file`. */
  method ImportClinics(file: CsvFile) returns (results: ImportResult)
    ensures results.success == SuccessCount(file.rows)
    ensures results.success + results.errors ==
            |file.rows| + (if file.readError.Some? then 1 else 0)
    ensures results.skipped == 0
    ensures results.details == Details(file.rows) + ReadDetail(file)
  {
    results := ImportResult(0, 0, 0, []);
    var rows := file.rows;
    var i := 0;
    while i < |rows|
      invariant 0 <= i <= |rows|
      invariant results.success == SuccessCount(rows[..i])
      invariant results.success + results.errors == i
      invariant results.skipped == 0
      invariant results.details == Details(rows[..i])
    {
      results := ImportRow(results, rows[i], i + 1);
      ImportStep(rows, i);
      i := i + 1;
    }
    assert rows[..i] == rows;
    match file.readError {
      case None =>
      case Some(msg) =>
        results := results.(errors := results.errors + 1,
                            details := results.details + [Detail(0, "File", [ReadFailed(msg)])]);
    }
  }

  /** One pass of the loop in `import_clinics`: validate the row, then save it or report it. */
  method ImportRow(results: ImportResult, r: CsvRow, rowNumber: nat) returns (next: ImportResult)
    ensures next.success == results.success + (if Saved(r) then 1 else 0)
    ensures next.errors == results.errors + (if Saved(r) then 0 else 1)
    ensures next.skipped == results.skipped
    ensures next.details == results.details + RowDetail(r, rowNumber)
  {
    var row := r.fields;
    var errors := ValidateRow(row);
    RowDetailCases(r, rowNumber, errors);
    if errors != [] {
      next := results.(errors := results.errors + 1,
                       details := results.details +
                         [Detail(rowNumber, ClinicLabel(row), AsImportErrors(errors))]);
      return;
    }
    match r.saveError {
      case None =>
        next := results.(success := results.success + 1);
        assert results.details + [] == results.details;
      case Some(msg) =>
        next := results.(errors := results.errors + 1,
                         details := results.details +
                           [Detail(rowNumber, ClinicLabel(row), [SaveFailed(msg)])]);
    }
  }

  lemma RowDetailCases(r: CsvRow, number: nat, errors: seq<RowError>)
    requires errors == RowErrors(r.fields)
    ensures errors != [] ==> (!Saved(r) &&
      RowDetail(r, number) == [Detail(number, ClinicLabel(r.fields), AsImportErrors(errors))])
    ensures errors == [] && r.saveError.None? ==> Saved(r) && RowDetail(r, number) == []
    ensures errors == [] && r.saveError.Some? ==> (!Saved(r) &&
      RowDetail(r, number) == [Detail(number, ClinicLabel(r.fields), [SaveFailed(r.saveError.value)])])
  {
  }

  lemma ImportStep(rows: seq<CsvRow>, i: nat)
    requires i < |rows|
    ensures Details(rows[..i + 1]) == Details(rows[..i]) + RowDetail(rows[i], i + 1)
    ensures SuccessCount(rows[..i + 1]) == SuccessCount(rows[..i]) + (if Saved(rows[i]) then 1 else 0)
  {
    assert rows[..i + 1][..i] == rows[..i];
  }

  /** A detail for each unsaved row and none for a saved one. */
  lemma {:induction false} DetailsCount(rows: seq<CsvRow>)
    ensures |Details(rows)| == |rows| - SuccessCount(rows)
  {
    if rows != [] {
      DetailsCount(rows[..|rows| - 1]);
    }
  }

  /**
   * Row numbers start at 1 and follow the file: the details entries name unsaved rows
   * by their number, in increasing order, with the row's clinic name.
   */
  lemma {:induction false} DetailsNumbered(rows: seq<CsvRow>)
    ensures WellNumbered(Details(rows), rows)
  {
    if rows != [] {
      var init := rows[..|rows| - 1];
      DetailsNumbered(init);
      NumberedStep(Details(init), init, rows, RowDetail(rows[|rows| - 1], |rows|));
    }
  }

  /** The entries name unsaved rows by their number, in increasing order, with the row's clinic name. */
  ghost predicate WellNumbered(d: seq<Detail>, rows: seq<CsvRow>)
  {
    NamesUnsavedRows(d, rows) && RowsIncreasing(d)
  }

  ghost predicate NamesUnsavedRows(d: seq<Detail>, rows: seq<CsvRow>)
  {
    forall k :: 0 <= k < |d| ==> NamesUnsavedRow(d[k], rows)
  }

  /** The entry's row number is that of an unsaved row, and it carries that row's clinic name. */
  ghost predicate NamesUnsavedRow(x: Detail, rows: seq<CsvRow>)
  {
    1 <= x.row <= |rows| && !Saved(rows[x.row - 1]) && x.clinic == ClinicLabel(rows[x.row - 1].fields)
  }

  ghost predicate RowsIncreasing(d: seq<Detail>)
  {
    forall k, l :: 0 <= k < l < |d| ==> d[k].row < d[l].row
  }

  lemma NumberedStep(d: seq<Detail>, init: seq<CsvRow>, rows: seq<CsvRow>, extra: seq<Detail>)
    requires rows != [] && init == rows[..|rows| - 1]
    requires WellNumbered(d, init)
    requires |extra| <= 1
    requires extra != [] ==> extra[0].row == |rows| && !Saved(rows[|rows| - 1]) &&
                             extra[0].clinic == ClinicLabel(rows[|rows| - 1].fields)
    ensures WellNumbered(d + extra, rows)
  {
    NamesStep(d, init, rows, extra);
    IncreasingStep(d, |init|, extra);
  }

  lemma NamesStep(d: seq<Detail>, init: seq<CsvRow>, rows: seq<CsvRow>, extra: seq<Detail>)
    requires rows != [] && init == rows[..|rows| - 1]
    requires NamesUnsavedRows(d, init)
    requires |extra| <= 1
    requires extra != [] ==> extra[0].row == |rows| && !Saved(rows[|rows| - 1]) &&
                             extra[0].clinic == ClinicLabel(rows[|rows| - 1].fields)
    ensures NamesUnsavedRows(d + extra, rows)
  {
    var e := d + extra;
    forall k | 0 <= k < |e|
      ensures NamesUnsavedRow(e[k], rows)
    {
      if k < |d| {
        assert e[k] == d[k];
        NamesUnsavedRowGrows(d[k], init, rows);
      } else {
        assert e[k] == extra[0];
      }
    }
  }

  lemma NamesUnsavedRowGrows(x: Detail, init: seq<CsvRow>, rows: seq<CsvRow>)
    requires rows != [] && init == rows[..|rows| - 1]
    requires NamesUnsavedRow(x, init)
    ensures NamesUnsavedRow(x, rows)
  {
    assert rows[x.row - 1] == init[x.row - 1];
  }

  lemma IncreasingStep(d: seq<Detail>, bound: nat, extra: seq<Detail>)
    requires RowsIncreasing(d)
    requires forall k :: 0 <= k < |d| ==> d[k].row <= bound
    requires |extra| <= 1
    requires extra != [] ==> extra[0].row > bound
    ensures RowsIncreasing(d + extra)
  {
    var e := d + extra;
    forall k, l | 0 <= k < l < |e|
      ensures e[k].row < e[l].row
    {
      assert e[k] == d[k];
      if l >= |d| {
        assert e[l] == extra[0];
      } else {
        assert e[l] == d[l];
      }
    }
  }

  /** Every unsaved row does get an entry. */
  lemma {:induction false} UnsavedRowsReported(rows: seq<CsvRow>, i: nat)
    requires i < |rows| && !Saved(rows[i])
    ensures exists k :: 0 <= k < |Details(rows)| && Details(rows)[k].row == i + 1
  {
    var init := rows[..|rows| - 1];
    if i == |rows| - 1 {
      assert Details(rows)[|Details(init)|] == RowDetail(rows[i], |rows|)[0];
    } else {
      assert init[i] == rows[i];
      UnsavedRowsReported(init, i);
      var k :| 0 <= k < |Details(init)| && Details(init)[k].row == i + 1;
      assert Details(rows)[k] == Details(init)[k];
    }
  }

  /** A row that fails validation is never saved, and its entry does not depend on the save step. */
  lemma InvalidRowNeverSaved(fields: Row, e1: Option<string>, e2: Option<string>, number: nat)
    requires RowErrors(fields) != []
    ensures !Saved(CsvRow(fields, e1))
    ensures RowDetail(CsvRow(fields, e1), number) == RowDetail(CsvRow(fields, e2), number)
    ensures RowDetail(CsvRow(fields, e1), number)[0].errors == AsImportErrors(RowErrors(fields))
  {
  }

  /** An unreadable file with no rows read yields one error and the entry numbered 0. */
  lemma UnreadableFile(msg: string)
    ensures Details([]) + ReadDetail(CsvFile([], Some(msg))) ==
            [Detail(0, "File", [ReadFailed(msg)])]
    ensures SuccessCount([]) == 0
  {
  }
}
