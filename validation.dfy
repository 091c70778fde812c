/**
 * What the matrix validator of the entry grid (validateAndPrepareEntries)
 * computes, as functions of the form, and the properties it guarantees.
 */
module Validation {
  import opened Types
  import opened Cells

  datatype Field = Date | CropClass | MonthYear | Rows | CashPrices

  datatype ValidationError = ValidationError(field: Field, message: string)

  datatype ValidationResult = ValidationResult(isValid: bool, errors: seq<ValidationError>, entries: seq<GrainEntryInsert>)

  const DATE_REQUIRED := ValidationError(Date, "Entry date is required")
  const CROP_CLASS_REQUIRED := ValidationError(Field.CropClass, "Crop class is required")
  const MONTH_YEAR_REQUIRED := ValidationError(MonthYear, "At least one month/year combination is required")
  const ROWS_REQUIRED := ValidationError(Rows, "At least one row with elevator and town is required")
  const CASH_PRICES_REQUIRED :=
    ValidationError(CashPrices, "At least one cash price must be entered for a valid elevator/town combination")

  /** The form as the validator receives it: date, crop class and its crop, six columns, the rows. */
  datatype Form = Form(
    date: string,
    cropClass: string,
    cropId: string,
    months: seq<string>,
    years: seq<int>,
    futures: seq<string>,
    rows: seq<EntryRow>)

  /** Six month, year and futures entries, and six price cells in every row. */
  predicate Shaped(f: Form) {
    |f.months| == COLUMNS && |f.years| == COLUMNS && |f.futures| == COLUMNS && RowsShaped(f.rows)
  }

  // ---------------------------------------------------------------------------
  // Presence stage

  /** `month && year && year > 0`: the column test of the presence stage and of the mapper. */
  predicate CompleteColumn(f: Form, c: nat)
    requires Shaped(f) && c < COLUMNS
  {
    Truthy(f.months[c]) && f.years[c] > 0
  }

  predicate HasCompleteColumn(f: Form)
    requires Shaped(f)
  {
    exists c :: 0 <= c < COLUMNS && CompleteColumn(f, c)
  }

  predicate HasAddressableRow(rows: seq<EntryRow>) {
    exists i :: 0 <= i < |rows| && Addressable(rows[i])
  }

  /** The errors the presence stage collects, in the order it collects them. */
  function PresenceErrors(f: Form): seq<ValidationError>
    requires Shaped(f)
  {
    (if !Truthy(f.date) then [DATE_REQUIRED] else [])
    + (if !Truthy(f.cropClass) then [CROP_CLASS_REQUIRED] else [])
    + (if HasCompleteColumn(f) then [] else [MONTH_YEAR_REQUIRED])
    + (if HasAddressableRow(f.rows) then [] else [ROWS_REQUIRED])
  }

  /** How many errors of the list concern `field`. */
  function Count(errors: seq<ValidationError>, field: Field): nat {
    if errors == [] then 0
    else (if errors[0].field == field then 1 else 0) + Count(errors[1..], field)
  }

  /** `errors.some(e => e.field === field)`. */
  predicate HasField(errors: seq<ValidationError>, field: Field) {
    exists e :: e in errors && e.field == field
  }

  lemma {:induction false} CountAppend(a: seq<ValidationError>, b: seq<ValidationError>, field: Field)
    ensures Count(a + b, field) == Count(a, field) + Count(b, field)
  {
    if a != [] {
      assert (a + b)[0] == a[0];
      assert (a + b)[1..] == a[1..] + b;
      CountAppend(a[1..], b, field);
    } else {
      assert a + b == b;
    }
  }

  lemma {:induction false} CountPositive(errors: seq<ValidationError>, field: Field)
    ensures HasField(errors, field) <==> Count(errors, field) > 0
  {
    if errors != [] {
      CountPositive(errors[1..], field);
      if HasField(errors, field) && errors[0].field != field {
        var e :| e in errors && e.field == field;
        assert e in errors[1..];
      }
      if HasField(errors[1..], field) {
        var e :| e in errors[1..] && e.field == field;
        assert e in errors;
      }
    }
  }

  /**
   * The presence stage raises exactly one `date` error iff the date is empty,
   * one `cropClass` error iff the crop class is empty, one `monthYear` error
   * iff no column has a month and a positive year, one `rows` error iff no row
   * has both elevator and town, and never a `cashPrices` error.
   */
  lemma PresenceStageErrors(f: Form)
    requires Shaped(f)
    ensures Count(PresenceErrors(f), Date) == if !Truthy(f.date) then 1 else 0
    ensures Count(PresenceErrors(f), Field.CropClass) == if !Truthy(f.cropClass) then 1 else 0
    ensures Count(PresenceErrors(f), MonthYear) == if HasCompleteColumn(f) then 0 else 1
    ensures Count(PresenceErrors(f), Rows) == if HasAddressableRow(f.rows) then 0 else 1
    ensures Count(PresenceErrors(f), CashPrices) == 0
    ensures |PresenceErrors(f)| == 0 <==>
              Truthy(f.date) && Truthy(f.cropClass) && HasCompleteColumn(f) && HasAddressableRow(f.rows)
  {
    var a := if !Truthy(f.date) then [DATE_REQUIRED] else [];
    var b := if !Truthy(f.cropClass) then [CROP_CLASS_REQUIRED] else [];
    var c := if HasCompleteColumn(f) then [] else [MONTH_YEAR_REQUIRED];
    var d := if HasAddressableRow(f.rows) then [] else [ROWS_REQUIRED];
    assert PresenceErrors(f) == a + b + c + d;
    forall field: Field
      ensures Count(PresenceErrors(f), field) == Count(a, field) + Count(b, field) + Count(c, field) + Count(d, field)
    {
      CountAppend(a + b + c, d, field);
      CountAppend(a + b, c, field);
      CountAppend(a, b, field);
    }
    forall field: Field
      ensures Count(a, field) == if !Truthy(f.date) && field == Date then 1 else 0
      ensures Count(b, field) == if !Truthy(f.cropClass) && field == Field.CropClass then 1 else 0
      ensures Count(c, field) == if !HasCompleteColumn(f) && field == MonthYear then 1 else 0
      ensures Count(d, field) == if !HasAddressableRow(f.rows) && field == Rows then 1 else 0
    {
      assert [DATE_REQUIRED][1..] == [];
      assert [CROP_CLASS_REQUIRED][1..] == [];
      assert [MONTH_YEAR_REQUIRED][1..] == [];
      assert [ROWS_REQUIRED][1..] == [];
    }
  }

  // ---------------------------------------------------------------------------
  // Extraction stage

  /** `!month || !year || year === 0` fails: the column test of the extraction loop. */
  predicate ExtractedColumn(f: Form, c: nat)
    requires Shaped(f) && c < COLUMNS
  {
    Truthy(f.months[c]) && f.years[c] != 0
  }

  /** A cash-price string that yields a record: non-empty, numeric and non-zero. */
  predicate ValidPrice(parse: NumberParser, s: string) {
    Truthy(s) && NumberOrNull(parse, s).Some?
  }

  /** The extraction loop emits a record for cell (c, r). Total, so that it can serve as a cell filter. */
  predicate EligibleCell(parse: NumberParser, f: Form, c: nat, r: nat) {
    && c < |f.months| && c < |f.years| && c < |f.futures| && r < |f.rows| && c < |f.rows[r].cashPrices|
    && Truthy(f.months[c]) && f.years[c] != 0
    && Addressable(f.rows[r])
    && ValidPrice(parse, f.rows[r].cashPrices[c])
  }

  function Eligibility(parse: NumberParser, f: Form): (nat, nat) -> bool {
    (c: nat, r: nat) => EligibleCell(parse, f, c, r)
  }

  /** The cells that produce records, in the order the loops visit them. */
  function EligibleCells(parse: NumberParser, f: Form): seq<Cell> {
    GridCells(COLUMNS, |f.rows|, Eligibility(parse, f))
  }

  /** A cell is listed iff the extraction loop emits a record for it; the list is column-major. */
  lemma EligibleCellsSpec(parse: NumberParser, f: Form)
    ensures forall x | x in EligibleCells(parse, f) :: x.col < COLUMNS && EligibleCell(parse, f, x.col, x.row)
    ensures forall c, r | 0 <= c < COLUMNS && EligibleCell(parse, f, c, r) :: Cell(c, r) in EligibleCells(parse, f)
    ensures ColumnMajor(EligibleCells(parse, f))
  {
    var ok := Eligibility(parse, f);
    GridCellsSpec(COLUMNS, |f.rows|, ok);
    forall c, r | 0 <= c < COLUMNS && EligibleCell(parse, f, c, r) ensures Cell(c, r) in EligibleCells(parse, f) {
      assert ok(c, r);
    }
  }

  /** The record built for an eligible cell. */
  function RecordAt(parse: NumberParser, f: Form, x: Cell): GrainEntryInsert
    requires EligibleCell(parse, f, x.col, x.row)
  {
    var row := f.rows[x.row];
    GrainEntryInsert(
      f.date, f.cropId, f.cropClass, row.elevatorId, row.townId,
      f.months[x.col], f.years[x.col],
      NumberOrNull(parse, row.cashPrices[x.col]).value,
      NumberOrNull(parse, f.futures[x.col]),
      "")
  }

  /** What cell (c, r) contributes to the extraction: its record if it is eligible, nothing otherwise. */
  function CellRecord(parse: NumberParser, f: Form, x: Cell): seq<GrainEntryInsert> {
    if EligibleCell(parse, f, x.col, x.row) then [RecordAt(parse, f, x)] else []
  }

  /** The records of the eligible cells among `cells`, in the same order. */
  function Records(parse: NumberParser, f: Form, cells: seq<Cell>): seq<GrainEntryInsert> {
    if cells == [] then []
    else
      Records(parse, f, cells[..|cells| - 1]) + CellRecord(parse, f, cells[|cells| - 1])
  }

  /** Records of a list extended by one cell: that cell's contribution comes last. */
  lemma RecordsSnoc(parse: NumberParser, f: Form, cells: seq<Cell>, x: Cell)
    ensures Records(parse, f, cells + [x]) == Records(parse, f, cells) + CellRecord(parse, f, x)
  {
    var s := cells + [x];
    assert s[..|s| - 1] == cells;
  }

  /** On a list of eligible cells, Records is one record per cell. */
  lemma {:induction false} RecordsAt(parse: NumberParser, f: Form, cells: seq<Cell>)
    requires forall k | 0 <= k < |cells| :: EligibleCell(parse, f, cells[k].col, cells[k].row)
    ensures |Records(parse, f, cells)| == |cells|
    ensures forall k | 0 <= k < |cells| :: Records(parse, f, cells)[k] == RecordAt(parse, f, cells[k])
  {
    if cells != [] {
      var init, x := cells[..|cells| - 1], cells[|cells| - 1];
      assert cells == init + [x];
      RecordsAt(parse, f, init);
      RecordsSnoc(parse, f, init, x);
    }
  }

  /** The records the row loop pushes for column `c`, over rows `0..n-1`. */
  function ColumnRecords(parse: NumberParser, f: Form, c: nat, n: nat): seq<GrainEntryInsert>
    requires Shaped(f) && c < COLUMNS && n <= |f.rows|
  {
    if n == 0 then []
    else
      ColumnRecords(parse, f, c, n - 1) + CellRecord(parse, f, Cell(c, n - 1))
  }

  /** The records the column loop pushes over columns `0..cols-1`. */
  function GridRecords(parse: NumberParser, f: Form, cols: nat): seq<GrainEntryInsert>
    requires Shaped(f) && cols <= COLUMNS
  {
    if cols == 0 then []
    else GridRecords(parse, f, cols - 1) + ColumnRecords(parse, f, cols - 1, |f.rows|)
  }

  /** Every record the extraction stage emits, before the sufficiency check. */
  function Extract(parse: NumberParser, f: Form): seq<GrainEntryInsert>
    requires Shaped(f)
  {
    GridRecords(parse, f, COLUMNS)
  }

  lemma {:induction false} ColumnRecordsAreCellRecords(parse: NumberParser, f: Form, c: nat, n: nat)
    requires Shaped(f) && c < COLUMNS && n <= |f.rows|
    ensures ColumnRecords(parse, f, c, n) == Records(parse, f, ColumnCells(c, n, Eligibility(parse, f)))
  {
    var ok := Eligibility(parse, f);
    if n == 0 {
      assert ColumnCells(c, 0, ok) == [];
    } else {
      ColumnRecordsAreCellRecords(parse, f, c, n - 1);
      var done, x := ColumnCells(c, n - 1, ok), Cell(c, n - 1);
      assert ok(c, n - 1) == EligibleCell(parse, f, c, n - 1);
      assert ColumnRecords(parse, f, c, n) == ColumnRecords(parse, f, c, n - 1) + CellRecord(parse, f, x);
      if ok(c, n - 1) {
        assert ColumnCells(c, n, ok) == done + [x];
        RecordsSnoc(parse, f, done, x);
      } else {
        assert ColumnCells(c, n, ok) == done;
        assert CellRecord(parse, f, x) == [];
      }
    }
  }

  lemma {:induction false} GridRecordsAreCellRecords(parse: NumberParser, f: Form, cols: nat)
    requires Shaped(f) && cols <= COLUMNS
    ensures GridRecords(parse, f, cols) == Records(parse, f, GridCells(cols, |f.rows|, Eligibility(parse, f)))
  {
    if cols > 0 {
      var ok := Eligibility(parse, f);
      GridRecordsAreCellRecords(parse, f, cols - 1);
      ColumnRecordsAreCellRecords(parse, f, cols - 1, |f.rows|);
      RecordsAppend(parse, f, GridCells(cols - 1, |f.rows|, ok), ColumnCells(cols - 1, |f.rows|, ok));
    }
  }

  /** The extraction stage yields exactly one record per eligible cell, in cell order. */
  lemma ExtractIsCellRecords(parse: NumberParser, f: Form)
    requires Shaped(f)
    ensures Extract(parse, f) == Records(parse, f, EligibleCells(parse, f))
  {
    GridRecordsAreCellRecords(parse, f, COLUMNS);
  }

  // ---------------------------------------------------------------------------
  // The whole validator

  /** validateAndPrepareEntries as a function of the form. */
  function Validate(parse: NumberParser, f: Form): ValidationResult
    requires Shaped(f)
  {
    var presence := PresenceErrors(f);
    if |presence| > 0 then ValidationResult(false, presence, [])
    else
      var entries := Extract(parse, f);
      if |entries| == 0 then ValidationResult(false, [CASH_PRICES_REQUIRED], entries)
      else ValidationResult(true, [], entries)
  }

  /** A column without a month or a year contributes no record. */
  lemma {:induction false} ColumnRecordsNone(parse: NumberParser, f: Form, c: nat, n: nat)
    requires Shaped(f) && c < COLUMNS && n <= |f.rows| && !ExtractedColumn(f, c)
    ensures ColumnRecords(parse, f, c, n) == []
  {
    if n > 0 {
      ColumnRecordsNone(parse, f, c, n - 1);
    }
  }

  lemma {:induction false} RecordsAppend(parse: NumberParser, f: Form, a: seq<Cell>, b: seq<Cell>)
    ensures Records(parse, f, a + b) == Records(parse, f, a) + Records(parse, f, b)
  {
    if b == [] {
      assert a + b == a;
    } else {
      var init := b[..|b| - 1];
      RecordsAppend(parse, f, a, init);
      assert (a + b)[..|a + b| - 1] == a + init;
      assert (a + b)[|a + b| - 1] == b[|b| - 1];
    }
  }

  // ---------------------------------------------------------------------------
  // Properties of the validator

  /**
   * Short circuit: when the presence stage fails, the result is invalid, has
   * no records, carries exactly the presence errors and no `cashPrices` error.
   */
  lemma ShortCircuit(parse: NumberParser, f: Form)
    requires Shaped(f)
    requires !Truthy(f.date) || !Truthy(f.cropClass) || !HasCompleteColumn(f) || !HasAddressableRow(f.rows)
    ensures !Validate(parse, f).isValid
    ensures Validate(parse, f).entries == []
    ensures Validate(parse, f).errors == PresenceErrors(f)
    ensures !HasField(Validate(parse, f).errors, CashPrices)
  {
    PresenceStageErrors(f);
    CountPositive(PresenceErrors(f), CashPrices);
  }

  /**
   * Sufficiency: once the presence stage passes, the form is valid iff at
   * least one record was extracted, and otherwise the only error is the
   * `cashPrices` one. In every case validity means an empty error list.
   */
  lemma Sufficiency(parse: NumberParser, f: Form)
    requires Shaped(f)
    ensures Validate(parse, f).isValid <==> |Validate(parse, f).errors| == 0
    ensures Truthy(f.date) && Truthy(f.cropClass) && HasCompleteColumn(f) && HasAddressableRow(f.rows) ==>
              && (Validate(parse, f).isValid <==> |Extract(parse, f)| > 0)
              && (!Validate(parse, f).isValid ==> Validate(parse, f).errors == [CASH_PRICES_REQUIRED])
              && Validate(parse, f).entries == Extract(parse, f)
  {
    PresenceStageErrors(f);
  }

  /**
   * Provenance: record k comes from the k-th eligible cell — a column with a
   * month and a non-zero year, an addressable row and a non-empty, non-zero
   * numeric price — and copies date, class, crop, elevator, town, month and
   * year from the form, with the column's futures reading and empty notes.
   */
  lemma ExtractProvenance(parse: NumberParser, f: Form, k: nat)
    requires Shaped(f)
    requires k < |Extract(parse, f)|
    ensures |EligibleCells(parse, f)| == |Extract(parse, f)|
    ensures var x, e := EligibleCells(parse, f)[k], Extract(parse, f)[k];
      && x.col < COLUMNS && x.row < |f.rows|
      && Truthy(f.months[x.col]) && f.years[x.col] != 0
      && Addressable(f.rows[x.row])
      && Truthy(f.rows[x.row].cashPrices[x.col])
      && e.date == f.date && e.classId == f.cropClass && e.cropId == f.cropId
      && e.elevatorId == f.rows[x.row].elevatorId && e.townId == f.rows[x.row].townId
      && e.month == f.months[x.col] && e.year == f.years[x.col]
      && parse(f.rows[x.row].cashPrices[x.col]) == Some(e.cashPrice) && e.cashPrice != 0.0
      && e.futures == NumberOrNull(parse, f.futures[x.col])
      && e.notes == ""
  {
    var cells := EligibleCells(parse, f);
    EligibleCellsSpec(parse, f);
    ExtractIsCellRecords(parse, f);
    RecordsAt(parse, f, cells);
    assert cells[k] in cells;
  }

  /** Completeness: every eligible cell yields a record, and records follow column-major cell order. */
  lemma ExtractCompleteAndOrdered(parse: NumberParser, f: Form)
    requires Shaped(f)
    ensures |Extract(parse, f)| == |EligibleCells(parse, f)|
    ensures forall c, r | 0 <= c < COLUMNS && 0 <= r < |f.rows| && EligibleCell(parse, f, c, r) ::
              exists k :: 0 <= k < |EligibleCells(parse, f)| && EligibleCells(parse, f)[k] == Cell(c, r)
                          && Extract(parse, f)[k] == RecordAt(parse, f, Cell(c, r))
    ensures ColumnMajor(EligibleCells(parse, f))
  {
    var cells := EligibleCells(parse, f);
    EligibleCellsSpec(parse, f);
    ExtractIsCellRecords(parse, f);
    RecordsAt(parse, f, cells);
    forall c, r | 0 <= c < COLUMNS && 0 <= r < |f.rows| && EligibleCell(parse, f, c, r)
      ensures exists k :: 0 <= k < |cells| && cells[k] == Cell(c, r) && Extract(parse, f)[k] == RecordAt(parse, f, Cell(c, r))
    {
      assert Cell(c, r) in cells;
      var k :| 0 <= k < |cells| && cells[k] == Cell(c, r);
    }
  }

  /** A cell whose price is empty, unparseable or zero is skipped, never an error of its own. */
  lemma SkippedCell(parse: NumberParser, f: Form, c: nat, r: nat)
    requires Shaped(f) && c < COLUMNS && r < |f.rows|
    requires var s := f.rows[r].cashPrices[c]; !Truthy(s) || parse(s).None? || parse(s) == Some(0.0)
    ensures Cell(c, r) !in EligibleCells(parse, f)
  {
    EligibleCellsSpec(parse, f);
  }

}
