/**
 * getFieldErrors: turns the validator's error list back into highlight flags
 * for the form — one flag per error group, one per column, one per row and
 * one per price cell — and what those flags mean after a failed save.
 */
module FieldErrorMap {
  import opened Types
  import opened Cells
  import opened Validation

  /** Highlight flags for every part of the form. */
  datatype FieldErrors = FieldErrors(
    date: bool,
    cropClass: bool,
    monthYear: bool,
    rows: bool,
    cashPrices: bool,
    monthYearErrors: seq<bool>,
    rowErrors: seq<bool>,
    cashPriceErrors: seq<seq<bool>>)

  const NO_FLAGS: seq<bool> := [false, false, false, false, false, false]

  /** A column with a month or a year that is not complete: `!complete && (month || year)`. */
  predicate PartialColumn(f: Form, c: nat)
    requires Shaped(f) && c < COLUMNS
  {
    !CompleteColumn(f, c) && (Truthy(f.months[c]) || f.years[c] != 0)
  }

  /** The mapper's rule for a column flag. */
  predicate MonthYearFlagged(errors: seq<ValidationError>, f: Form, c: nat)
    requires Shaped(f) && c < COLUMNS
  {
    HasField(errors, MonthYear) && (PartialColumn(f, c) || (c == 0 && !HasCompleteColumn(f)))
  }

  /** The mapper's rule for a row flag. */
  predicate RowFlagged(errors: seq<ValidationError>, f: Form, r: nat)
    requires r < |f.rows|
  {
    HasField(errors, Rows) && !Addressable(f.rows[r])
  }

  /** Cell (r, c) lies on the entry surface: addressable row, complete column. */
  predicate OnSurface(f: Form, r: nat, c: nat)
    requires Shaped(f) && r < |f.rows| && c < COLUMNS
  {
    Addressable(f.rows[r]) && CompleteColumn(f, c)
  }

  /** A surface cell without a usable price (`!(price && parseFloat(price))`). */
  predicate PriceMissing(parse: NumberParser, f: Form, r: nat, c: nat)
    requires Shaped(f) && r < |f.rows| && c < COLUMNS
  {
    OnSurface(f, r, c) && !ValidPrice(parse, f.rows[r].cashPrices[c])
  }

  /** A surface cell with a usable price. */
  predicate PricePresent(parse: NumberParser, f: Form, r: nat, c: nat)
    requires Shaped(f) && r < |f.rows| && c < COLUMNS
  {
    OnSurface(f, r, c) && ValidPrice(parse, f.rows[r].cashPrices[c])
  }

  /** Some cell of the entry surface holds a usable price. */
  predicate HasAnyPrice(parse: NumberParser, f: Form)
    requires Shaped(f)
  {
    exists r, c :: 0 <= r < |f.rows| && 0 <= c < COLUMNS && PricePresent(parse, f, r, c)
  }

  /** The mapper's rule for a price cell: on the surface, and either priceless or no price anywhere. */
  predicate CashPriceFlagged(parse: NumberParser, errors: seq<ValidationError>, f: Form, r: nat, c: nat)
    requires Shaped(f) && r < |f.rows| && c < COLUMNS
  {
    && HasField(errors, CashPrices)
    && OnSurface(f, r, c)
    && (!ValidPrice(parse, f.rows[r].cashPrices[c]) || !HasAnyPrice(parse, f))
  }

  // ---------------------------------------------------------------------------
  // The loops of getFieldErrors

  /** The column loop run on a `monthYear` error: partial columns, and column 0 when none is complete. */
  method MonthYearFlags(f: Form) returns (monthYearErrors: seq<bool>)
    requires Shaped(f)
    ensures |monthYearErrors| == COLUMNS
    ensures forall c :: 0 <= c < COLUMNS ==>
              monthYearErrors[c] == (PartialColumn(f, c) || (c == 0 && !HasCompleteColumn(f)))
  {
    monthYearErrors := NO_FLAGS;
    var hasAnyValid := false;
    var i := 0;
    while i < COLUMNS
      invariant 0 <= i <= COLUMNS && |monthYearErrors| == COLUMNS
      invariant hasAnyValid == exists c :: 0 <= c < i && CompleteColumn(f, c)
      invariant forall c :: 0 <= c < COLUMNS ==> monthYearErrors[c] == (c < i && PartialColumn(f, c))
    {
      if Truthy(f.months[i]) && f.years[i] != 0 && f.years[i] > 0 {
        hasAnyValid := true;
        assert CompleteColumn(f, i);
      } else if Truthy(f.months[i]) || f.years[i] != 0 {
        monthYearErrors := monthYearErrors[i := true];
      }
      i := i + 1;
    }
    if !hasAnyValid {
      monthYearErrors := monthYearErrors[0 := true];
    }
  }

  /** The row loop run on a `rows` error: every row missing its elevator or its town. */
  method RowFlags(rows: seq<EntryRow>) returns (rowErrors: seq<bool>)
    ensures |rowErrors| == |rows|
    ensures forall r :: 0 <= r < |rows| ==> rowErrors[r] == !Addressable(rows[r])
  {
    rowErrors := seq(|rows|, _ => false);
    var i := 0;
    while i < |rows|
      invariant 0 <= i <= |rows| && |rowErrors| == |rows|
      invariant forall r :: 0 <= r < |rows| ==> rowErrors[r] == (r < i && !Addressable(rows[r]))
    {
      if !Truthy(rows[i].elevatorId) || !Truthy(rows[i].townId) {
        rowErrors := rowErrors[i := true];
      }
      i := i + 1;
    }
  }

  /** The first price pass over one addressable row: flags its priceless surface cells. */
  method PriceRowFlags(parse: NumberParser, f: Form, rowIndex: nat) returns (rowFlags: seq<bool>, found: bool)
    requires Shaped(f) && rowIndex < |f.rows| && Addressable(f.rows[rowIndex])
    ensures |rowFlags| == COLUMNS
    ensures forall c :: 0 <= c < COLUMNS ==> rowFlags[c] == PriceMissing(parse, f, rowIndex, c)
    ensures found == exists c :: 0 <= c < COLUMNS && PricePresent(parse, f, rowIndex, c)
  {
    var row := f.rows[rowIndex];
    rowFlags, found := NO_FLAGS, false;
    var colIndex := 0;
    while colIndex < |row.cashPrices|
      invariant 0 <= colIndex <= COLUMNS && |rowFlags| == COLUMNS
      invariant forall c :: 0 <= c < COLUMNS ==> rowFlags[c] == (c < colIndex && PriceMissing(parse, f, rowIndex, c))
      invariant found == exists c :: 0 <= c < colIndex && PricePresent(parse, f, rowIndex, c)
    {
      var price := row.cashPrices[colIndex];
      if Truthy(f.months[colIndex]) && f.years[colIndex] != 0 && f.years[colIndex] > 0 {
        if Truthy(price) && NumberOrNull(parse, price).Some? {
          found := true;
          assert PricePresent(parse, f, rowIndex, colIndex);
        } else {
          rowFlags := rowFlags[colIndex := true];
        }
      }
      colIndex := colIndex + 1;
    }
  }

  /** The first price pass run on a `cashPrices` error: every priceless surface cell, and whether any cell had a price. */
  method PriceFlags(parse: NumberParser, f: Form) returns (cashPriceErrors: seq<seq<bool>>, foundAnyPrice: bool)
    requires Shaped(f)
    ensures |cashPriceErrors| == |f.rows| && forall r :: 0 <= r < |f.rows| ==> |cashPriceErrors[r]| == COLUMNS
    ensures forall r, c :: 0 <= r < |f.rows| && 0 <= c < COLUMNS ==> cashPriceErrors[r][c] == PriceMissing(parse, f, r, c)
    ensures foundAnyPrice == HasAnyPrice(parse, f)
  {
    var n := |f.rows|;
    cashPriceErrors := seq(n, _ => NO_FLAGS);
    foundAnyPrice := false;
    var rowIndex := 0;
    while rowIndex < n
      invariant 0 <= rowIndex <= n
      invariant |cashPriceErrors| == n && forall r :: 0 <= r < n ==> |cashPriceErrors[r]| == COLUMNS
      invariant forall r, c :: 0 <= r < n && 0 <= c < COLUMNS ==>
                  cashPriceErrors[r][c] == (r < rowIndex && PriceMissing(parse, f, r, c))
      invariant foundAnyPrice == exists r, c :: 0 <= r < rowIndex && 0 <= c < COLUMNS && PricePresent(parse, f, r, c)
    {
      if Truthy(f.rows[rowIndex].elevatorId) && Truthy(f.rows[rowIndex].townId) {
        var rowFlags, found := PriceRowFlags(parse, f, rowIndex);
        cashPriceErrors := cashPriceErrors[rowIndex := rowFlags];
        foundAnyPrice := foundAnyPrice || found;
      }
      rowIndex := rowIndex + 1;
    }
  }

  /** The fallback pass over one addressable row: flags every cell of a complete column. */
  method SurfaceRowFlags(f: Form, rowFlagsIn: seq<bool>) returns (rowFlags: seq<bool>)
    requires Shaped(f) && |rowFlagsIn| == COLUMNS
    ensures |rowFlags| == COLUMNS
    ensures forall c :: 0 <= c < COLUMNS ==> rowFlags[c] == (rowFlagsIn[c] || CompleteColumn(f, c))
  {
    rowFlags := rowFlagsIn;
    var colIndex := 0;
    while colIndex < COLUMNS
      invariant 0 <= colIndex <= COLUMNS && |rowFlags| == COLUMNS
      invariant forall c :: 0 <= c < COLUMNS ==>
                  rowFlags[c] == (rowFlagsIn[c] || (c < colIndex && CompleteColumn(f, c)))
    {
      if Truthy(f.months[colIndex]) && f.years[colIndex] != 0 && f.years[colIndex] > 0 {
        rowFlags := rowFlags[colIndex := true];
      }
      colIndex := colIndex + 1;
    }
  }

  /** The fallback pass run when no cell had a price: every cell of the entry surface. */
  method SurfaceFlags(f: Form, flagsIn: seq<seq<bool>>) returns (cashPriceErrors: seq<seq<bool>>)
    requires Shaped(f)
    requires |flagsIn| == |f.rows| && forall r :: 0 <= r < |f.rows| ==> |flagsIn[r]| == COLUMNS
    ensures |cashPriceErrors| == |f.rows| && forall r :: 0 <= r < |f.rows| ==> |cashPriceErrors[r]| == COLUMNS
    ensures forall r, c :: 0 <= r < |f.rows| && 0 <= c < COLUMNS ==>
              cashPriceErrors[r][c] == (flagsIn[r][c] || OnSurface(f, r, c))
  {
    var n := |f.rows|;
    cashPriceErrors := flagsIn;
    var rowIndex := 0;
    while rowIndex < n
      invariant 0 <= rowIndex <= n
      invariant |cashPriceErrors| == n && forall r :: 0 <= r < n ==> |cashPriceErrors[r]| == COLUMNS
      invariant forall r, c :: 0 <= r < n && 0 <= c < COLUMNS ==>
                  cashPriceErrors[r][c] == (flagsIn[r][c] || (r < rowIndex && OnSurface(f, r, c)))
    {
      if Truthy(f.rows[rowIndex].elevatorId) && Truthy(f.rows[rowIndex].townId) {
        var rowFlags := SurfaceRowFlags(f, cashPriceErrors[rowIndex]);
        cashPriceErrors := cashPriceErrors[rowIndex := rowFlags];
      }
      rowIndex := rowIndex + 1;
    }
  }

  /** getFieldErrors: the group flags and the three highlight matrices, each filled only for its own error. */
  method GetFieldErrors(parse: NumberParser, errors: seq<ValidationError>, f: Form) returns (fe: FieldErrors)
    requires Shaped(f)
    ensures fe.date == HasField(errors, Date) && fe.cropClass == HasField(errors, Field.CropClass)
    ensures fe.monthYear == HasField(errors, MonthYear) && fe.rows == HasField(errors, Rows)
    ensures fe.cashPrices == HasField(errors, CashPrices)
    ensures |fe.monthYearErrors| == COLUMNS
    ensures forall c :: 0 <= c < COLUMNS ==> fe.monthYearErrors[c] == MonthYearFlagged(errors, f, c)
    ensures |fe.rowErrors| == |f.rows|
    ensures forall r :: 0 <= r < |f.rows| ==> fe.rowErrors[r] == RowFlagged(errors, f, r)
    ensures |fe.cashPriceErrors| == |f.rows|
    ensures forall r :: 0 <= r < |f.rows| ==> |fe.cashPriceErrors[r]| == COLUMNS
    ensures forall r, c :: 0 <= r < |f.rows| && 0 <= c < COLUMNS ==>
              fe.cashPriceErrors[r][c] == CashPriceFlagged(parse, errors, f, r, c)
  {
    var n := |f.rows|;
    var monthYearErrors := NO_FLAGS;
    var rowErrors := seq(n, _ => false);
    var cashPriceErrors := seq(n, _ => NO_FLAGS);

    if HasField(errors, MonthYear) {
      monthYearErrors := MonthYearFlags(f);
    }
    if HasField(errors, Rows) {
      rowErrors := RowFlags(f.rows);
    }
    if HasField(errors, CashPrices) {
      var foundAnyPrice;
      cashPriceErrors, foundAnyPrice := PriceFlags(parse, f);
      if !foundAnyPrice {
        cashPriceErrors := SurfaceFlags(f, cashPriceErrors);
      }
    }

    return FieldErrors(
      HasField(errors, Date), HasField(errors, Field.CropClass), HasField(errors, MonthYear),
      HasField(errors, Rows), HasField(errors, CashPrices),
      monthYearErrors, rowErrors, cashPriceErrors);
  }

  // ---------------------------------------------------------------------------
  // Properties of the mapper

  /**
   * With a `cashPrices` error, a cell is flagged iff it lies on the entry
   * surface and its price is missing, zero or not a number; the "no price
   * anywhere" fallback flags the whole surface but never a cell the first
   * pass left unflagged.
   */
  lemma CashPriceFlagRule(parse: NumberParser, errors: seq<ValidationError>, f: Form, r: nat, c: nat)
    requires Shaped(f) && r < |f.rows| && c < COLUMNS
    ensures CashPriceFlagged(parse, errors, f, r, c) <==> HasField(errors, CashPrices) && PriceMissing(parse, f, r, c)
    ensures HasField(errors, CashPrices) && !HasAnyPrice(parse, f) && OnSurface(f, r, c) ==>
              CashPriceFlagged(parse, errors, f, r, c)
  {
    if CashPriceFlagged(parse, errors, f, r, c) && ValidPrice(parse, f.rows[r].cashPrices[c]) {
      assert PricePresent(parse, f, r, c);
    }
  }

  /** A usable price on the entry surface always yields a record. */
  lemma SurfacePriceYieldsRecord(parse: NumberParser, f: Form)
    requires Shaped(f)
    ensures HasAnyPrice(parse, f) ==> |Extract(parse, f)| > 0
  {
    if HasAnyPrice(parse, f) {
      var r, c :| 0 <= r < |f.rows| && 0 <= c < COLUMNS && PricePresent(parse, f, r, c);
      ExtractCompleteAndOrdered(parse, f);
      assert EligibleCell(parse, f, c, r);
    }
  }

  /** After a failed save whose error is `cashPrices`, the whole entry surface is highlighted. */
  lemma ValidatorCashPriceErrorHighlightsSurface(parse: NumberParser, f: Form, r: nat, c: nat)
    requires Shaped(f) && r < |f.rows| && c < COLUMNS
    requires HasField(Validate(parse, f).errors, CashPrices)
    requires OnSurface(f, r, c)
    ensures CashPriceFlagged(parse, Validate(parse, f).errors, f, r, c)
  {
    PresenceStageErrors(f);
    CountPositive(PresenceErrors(f), CashPrices);
    SurfacePriceYieldsRecord(parse, f);
  }

  /**
   * After a failed save with a `monthYear` error, column 0 is highlighted;
   * with a `rows` error, every row is highlighted (no row is addressable).
   */
  lemma ValidatorPresenceErrorsHighlight(parse: NumberParser, f: Form)
    requires Shaped(f)
    ensures HasField(Validate(parse, f).errors, MonthYear) ==> MonthYearFlagged(Validate(parse, f).errors, f, 0)
    ensures HasField(Validate(parse, f).errors, Rows) ==>
              forall r :: 0 <= r < |f.rows| ==> RowFlagged(Validate(parse, f).errors, f, r)
  {
    PresenceStageErrors(f);
    CountPositive(PresenceErrors(f), MonthYear);
    CountPositive(PresenceErrors(f), Rows);
    CountPositive([CASH_PRICES_REQUIRED], MonthYear);
    CountPositive([CASH_PRICES_REQUIRED], Rows);
  }
}
