/**
 * validateAndPrepareEntries as the loops the grid runs on save, each proved
 * to compute the corresponding function of the Validation module.
 */
module Validator {
  import opened Types
  import opened Cells
  import opened Validation

  /** The month/year scan of the presence stage (stops at the first complete column). */
  method ScanMonthYear(f: Form) returns (hasValidMonthYear: bool)
    requires Shaped(f)
    ensures hasValidMonthYear == HasCompleteColumn(f)
  {
    hasValidMonthYear := false;
    var monthIndex := 0;
    while monthIndex < COLUMNS
      invariant 0 <= monthIndex <= COLUMNS
      invariant forall c :: 0 <= c < monthIndex ==> !CompleteColumn(f, c)
    {
      var month := f.months[monthIndex];
      var year := f.years[monthIndex];
      if Truthy(month) && year != 0 && year > 0 {
        hasValidMonthYear := true;
        assert CompleteColumn(f, monthIndex);
        return;
      }
      monthIndex := monthIndex + 1;
    }
  }

  /** The row scan of the presence stage (visits every row). */
  method ScanRows(rows: seq<EntryRow>) returns (hasValidRow: bool)
    ensures hasValidRow == HasAddressableRow(rows)
  {
    hasValidRow := false;
    var rowIndex := 0;
    while rowIndex < |rows|
      invariant 0 <= rowIndex <= |rows|
      invariant hasValidRow == exists i :: 0 <= i < rowIndex && Addressable(rows[i])
    {
      if Truthy(rows[rowIndex].elevatorId) && Truthy(rows[rowIndex].townId) {
        hasValidRow := true;
      }
      rowIndex := rowIndex + 1;
    }
  }

  /**
   * The `entryRows.forEach` callback of the extraction stage for row `r` of
   * column `monthIndex`: skips a row without elevator or town and a price that
   * is empty, unparseable or zero, and otherwise pushes one record.
   */
  method PushRowEntry(parse: NumberParser, f: Form, monthIndex: nat, r: nat,
                      month: string, year: int, futures: Option<real>,
                      entriesIn: seq<GrainEntryInsert>, hasAnyIn: bool)
    returns (entriesToInsert: seq<GrainEntryInsert>, hasAnyEntries: bool)
    requires Shaped(f) && monthIndex < COLUMNS && r < |f.rows|
    requires month == f.months[monthIndex] && year == f.years[monthIndex]
    requires futures == NumberOrNull(parse, f.futures[monthIndex])
    requires ExtractedColumn(f, monthIndex)
    ensures entriesToInsert == entriesIn + CellRecord(parse, f, Cell(monthIndex, r))
    ensures hasAnyEntries == (hasAnyIn || EligibleCell(parse, f, monthIndex, r))
  {
    entriesToInsert, hasAnyEntries := entriesIn, hasAnyIn;
    var row := f.rows[r];
    if !(Truthy(row.elevatorId) && Truthy(row.townId)) {
      assert entriesIn + [] == entriesIn;
      return;
    }
    var cashPriceStr := row.cashPrices[monthIndex];
    var cashPrice := NumberOrNull(parse, cashPriceStr);
    if cashPrice.None? || !Truthy(cashPriceStr) {
      assert entriesIn + [] == entriesIn;
      return;
    }
    hasAnyEntries := true;
    entriesToInsert := entriesToInsert + [GrainEntryInsert(
      f.date, f.cropId, f.cropClass, row.elevatorId, row.townId,
      month, year, cashPrice.value, futures, "")];
  }

  /** One column of the extraction stage: the row callback over every row, in order. */
  method PushColumnEntries(parse: NumberParser, f: Form, monthIndex: nat,
                           entriesIn: seq<GrainEntryInsert>, hasAnyIn: bool)
    returns (entriesToInsert: seq<GrainEntryInsert>, hasAnyEntries: bool)
    requires Shaped(f) && monthIndex < COLUMNS && ExtractedColumn(f, monthIndex)
    requires hasAnyIn == (|entriesIn| > 0)
    ensures entriesToInsert == entriesIn + ColumnRecords(parse, f, monthIndex, |f.rows|)
    ensures hasAnyEntries == (|entriesToInsert| > 0)
  {
    var month := f.months[monthIndex];
    var year := f.years[monthIndex];
    var futures := NumberOrNull(parse, f.futures[monthIndex]);
    entriesToInsert, hasAnyEntries := entriesIn, hasAnyIn;
    var r := 0;
    while r < |f.rows|
      invariant 0 <= r <= |f.rows|
      invariant entriesToInsert == entriesIn + ColumnRecords(parse, f, monthIndex, r)
      invariant hasAnyEntries == (|entriesToInsert| > 0)
    {
      ghost var done := ColumnRecords(parse, f, monthIndex, r);
      entriesToInsert, hasAnyEntries :=
        PushRowEntry(parse, f, monthIndex, r, month, year, futures, entriesToInsert, hasAnyEntries);
      assert entriesIn + done + CellRecord(parse, f, Cell(monthIndex, r))
          == entriesIn + (done + CellRecord(parse, f, Cell(monthIndex, r)));
      r := r + 1;
    }
  }

  /**
   * One iteration of the extraction stage's outer loop: a column without month
   * or year is skipped, any other column runs the row callback over every row.
   */
  method ExtractColumn(parse: NumberParser, f: Form, monthIndex: nat,
                       entriesIn: seq<GrainEntryInsert>, hasAnyIn: bool)
    returns (entriesToInsert: seq<GrainEntryInsert>, hasAnyEntries: bool)
    requires Shaped(f) && monthIndex < COLUMNS
    requires entriesIn == GridRecords(parse, f, monthIndex)
    requires hasAnyIn == (|entriesIn| > 0)
    ensures entriesToInsert == GridRecords(parse, f, monthIndex + 1)
    ensures hasAnyEntries == (|entriesToInsert| > 0)
  {
    var month := f.months[monthIndex];
    var year := f.years[monthIndex];
    assert GridRecords(parse, f, monthIndex + 1)
        == entriesIn + ColumnRecords(parse, f, monthIndex, |f.rows|);
    if !Truthy(month) || year == 0 {
      ColumnRecordsNone(parse, f, monthIndex, |f.rows|);
      assert entriesIn + [] == entriesIn;
      return entriesIn, hasAnyIn;
    }
    entriesToInsert, hasAnyEntries := PushColumnEntries(parse, f, monthIndex, entriesIn, hasAnyIn);
  }

  /** The extraction stage: columns outer, rows inner. */
  method ExtractEntries(parse: NumberParser, f: Form) returns (entriesToInsert: seq<GrainEntryInsert>, hasAnyEntries: bool)
    requires Shaped(f)
    ensures entriesToInsert == Extract(parse, f)
    ensures hasAnyEntries == (|entriesToInsert| > 0)
  {
    entriesToInsert := [];
    hasAnyEntries := false;
    var monthIndex := 0;
    while monthIndex < COLUMNS
      invariant 0 <= monthIndex <= COLUMNS
      invariant entriesToInsert == GridRecords(parse, f, monthIndex)
      invariant hasAnyEntries == (|entriesToInsert| > 0)
    {
      entriesToInsert, hasAnyEntries := ExtractColumn(parse, f, monthIndex, entriesToInsert, hasAnyEntries);
      monthIndex := monthIndex + 1;
    }
  }

  /** validateAndPrepareEntries: presence, extraction and sufficiency stages, proved equal to Validate. */
  method ValidateAndPrepareEntries(parse: NumberParser, f: Form) returns (result: ValidationResult)
    requires Shaped(f)
    ensures result == Validate(parse, f)
  {
    var errors: seq<ValidationError> := [];
    if !Truthy(f.date) {
      errors := errors + [DATE_REQUIRED];
    }
    if !Truthy(f.cropClass) {
      errors := errors + [CROP_CLASS_REQUIRED];
    }
    var hasValidMonthYear := ScanMonthYear(f);
    if !hasValidMonthYear {
      errors := errors + [MONTH_YEAR_REQUIRED];
    }
    var hasValidRow := ScanRows(f.rows);
    if !hasValidRow {
      errors := errors + [ROWS_REQUIRED];
    }
    assert errors == PresenceErrors(f);
    if |errors| > 0 {
      return ValidationResult(false, errors, []);
    }

    var entriesToInsert, hasAnyEntries := ExtractEntries(parse, f);
    if !hasAnyEntries {
      errors := errors + [CASH_PRICES_REQUIRED];
    }
    return ValidationResult(|errors| == 0, errors, entriesToInsert);
  }
}
