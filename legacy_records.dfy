/**
 * The save loop of the entries page: the same columns-by-rows crossing as
 * the validator's extraction stage, without presence stage, without class id
 * and without the empty-string test on the price.
 */
module LegacyRecords {
  import opened Types
  import opened Cells
  import opened Validation

  /** The record the entries page inserts (no class id). */
  datatype LegacyInsert = LegacyInsert(
    date: string,
    cropId: string,
    elevatorId: string,
    townId: string,
    month: string,
    year: int,
    cashPrice: real,
    futures: Option<real>,
    notes: string)

  /** The entries page's form: date, crop, six columns and the rows. */
  datatype LegacyForm = LegacyForm(
    date: string,
    crop: string,
    months: seq<string>,
    years: seq<int>,
    futures: seq<string>,
    rows: seq<EntryRow>)

  predicate LegacyShaped(f: LegacyForm) {
    |f.months| == COLUMNS && |f.years| == COLUMNS && |f.futures| == COLUMNS && RowsShaped(f.rows)
  }

  /** The loop reaches the push for cell (c, r): month and year set, elevator and town set, a non-zero price. */
  predicate LegacyEligible(parse: NumberParser, f: LegacyForm, c: nat, r: nat)
    requires LegacyShaped(f) && c < COLUMNS && r < |f.rows|
  {
    && Truthy(f.months[c]) && f.years[c] != 0
    && Addressable(f.rows[r])
    && NumberOrNull(parse, f.rows[r].cashPrices[c]).Some?
  }

  function LegacyRecordAt(parse: NumberParser, f: LegacyForm, c: nat, r: nat): LegacyInsert
    requires LegacyShaped(f) && c < COLUMNS && r < |f.rows| && LegacyEligible(parse, f, c, r)
  {
    var row := f.rows[r];
    LegacyInsert(f.date, f.crop, row.elevatorId, row.townId, f.months[c], f.years[c],
                 NumberOrNull(parse, row.cashPrices[c]).value, NumberOrNull(parse, f.futures[c]), "")
  }

  function LegacyCellRecord(parse: NumberParser, f: LegacyForm, c: nat, r: nat): seq<LegacyInsert>
    requires LegacyShaped(f) && c < COLUMNS && r < |f.rows|
  {
    if LegacyEligible(parse, f, c, r) then [LegacyRecordAt(parse, f, c, r)] else []
  }

  /** What the row loop of column `c` pushes for rows `0..n-1`. */
  function LegacyColumnRecords(parse: NumberParser, f: LegacyForm, c: nat, n: nat): seq<LegacyInsert>
    requires LegacyShaped(f) && c < COLUMNS && n <= |f.rows|
  {
    if n == 0 then [] else LegacyColumnRecords(parse, f, c, n - 1) + LegacyCellRecord(parse, f, c, n - 1)
  }

  /** What the column loop pushes for columns `0..cols-1`. */
  function LegacyGridRecords(parse: NumberParser, f: LegacyForm, cols: nat): seq<LegacyInsert>
    requires LegacyShaped(f) && cols <= COLUMNS
  {
    if cols == 0 then [] else LegacyGridRecords(parse, f, cols - 1) + LegacyColumnRecords(parse, f, cols - 1, |f.rows|)
  }

  function LegacyExtract(parse: NumberParser, f: LegacyForm): seq<LegacyInsert>
    requires LegacyShaped(f)
  {
    LegacyGridRecords(parse, f, COLUMNS)
  }

  // ---------------------------------------------------------------------------
  // What the records are

  lemma {:induction false} LegacyColumnMembers(parse: NumberParser, f: LegacyForm, c: nat, n: nat)
    requires LegacyShaped(f) && c < COLUMNS && n <= |f.rows|
    ensures forall x :: x in LegacyColumnRecords(parse, f, c, n) <==>
      exists r :: 0 <= r < n && LegacyEligible(parse, f, c, r) && x == LegacyRecordAt(parse, f, c, r)
  {
    if n > 0 {
      LegacyColumnMembers(parse, f, c, n - 1);
      var a, b := LegacyColumnRecords(parse, f, c, n - 1), LegacyCellRecord(parse, f, c, n - 1);
      assert forall x :: x in a + b <==> x in a || x in b;
    }
  }

  lemma {:induction false} LegacyGridMembers(parse: NumberParser, f: LegacyForm, cols: nat)
    requires LegacyShaped(f) && cols <= COLUMNS
    ensures forall x :: x in LegacyGridRecords(parse, f, cols) <==>
      exists c, r :: 0 <= c < cols && 0 <= r < |f.rows| && LegacyEligible(parse, f, c, r) && x == LegacyRecordAt(parse, f, c, r)
  {
    if cols > 0 {
      LegacyGridMembers(parse, f, cols - 1);
      LegacyColumnMembers(parse, f, cols - 1, |f.rows|);
      var a, b := LegacyGridRecords(parse, f, cols - 1), LegacyColumnRecords(parse, f, cols - 1, |f.rows|);
      assert forall x :: x in a + b <==> x in a || x in b;
    }
  }

  /**
   * The page inserts exactly the records of the eligible cells: a record is
   * in the batch iff some column with month and non-zero year and some row
   * with elevator and town have a non-zero parsed price, and the record
   * copies date, crop, elevator, town, month, year and futures with notes "".
   */
  lemma LegacyExtractMembers(parse: NumberParser, f: LegacyForm)
    requires LegacyShaped(f)
    ensures forall x :: x in LegacyExtract(parse, f) <==>
      exists c, r :: 0 <= c < COLUMNS && 0 <= r < |f.rows| && LegacyEligible(parse, f, c, r) && x == LegacyRecordAt(parse, f, c, r)
  {
    LegacyGridMembers(parse, f, COLUMNS);
  }

  // ---------------------------------------------------------------------------
  // Agreement with the validator

  /** A validator record without its class id. */
  function Strip(e: GrainEntryInsert): LegacyInsert {
    LegacyInsert(e.date, e.cropId, e.elevatorId, e.townId, e.month, e.year, e.cashPrice, e.futures, e.notes)
  }

  function StripAll(s: seq<GrainEntryInsert>): (r: seq<LegacyInsert>)
    ensures |r| == |s| && forall i | 0 <= i < |s| :: r[i] == Strip(s[i])
  {
    seq(|s|, i requires 0 <= i < |s| => Strip(s[i]))
  }

  lemma StripAllAppend(a: seq<GrainEntryInsert>, b: seq<GrainEntryInsert>)
    ensures StripAll(a + b) == StripAll(a) + StripAll(b)
  {
  }

  /** The entries page's form as the validator would see it with class `classId` selected. */
  function AsForm(f: LegacyForm, classId: string): Form {
    Form(f.date, classId, f.crop, f.months, f.years, f.futures, f.rows)
  }

  lemma {:induction false} LegacyColumnAgrees(parse: NumberParser, f: LegacyForm, classId: string, c: nat, n: nat)
    requires parse("") == None
    requires LegacyShaped(f) && c < COLUMNS && n <= |f.rows|
    ensures LegacyColumnRecords(parse, f, c, n) == StripAll(ColumnRecords(parse, AsForm(f, classId), c, n))
  {
    if n > 0 {
      var g := AsForm(f, classId);
      LegacyColumnAgrees(parse, f, classId, c, n - 1);
      assert EligibleCell(parse, g, c, n - 1) == LegacyEligible(parse, f, c, n - 1);
      StripAllAppend(ColumnRecords(parse, g, c, n - 1), CellRecord(parse, g, Cell(c, n - 1)));
    }
  }

  lemma {:induction false} LegacyGridAgrees(parse: NumberParser, f: LegacyForm, classId: string, cols: nat)
    requires parse("") == None
    requires LegacyShaped(f) && cols <= COLUMNS
    ensures LegacyGridRecords(parse, f, cols) == StripAll(GridRecords(parse, AsForm(f, classId), cols))
  {
    if cols > 0 {
      var g := AsForm(f, classId);
      LegacyGridAgrees(parse, f, classId, cols - 1);
      LegacyColumnAgrees(parse, f, classId, cols - 1, |f.rows|);
      StripAllAppend(GridRecords(parse, g, cols - 1), ColumnRecords(parse, g, cols - 1, |f.rows|));
    }
  }

  /**
   * Since parseFloat("") is NaN, the page's batch is the validator's
   * extraction of the same form with the class id dropped, record for
   * record and in the same column-major order.
   */
  lemma LegacyAgreesWithValidator(parse: NumberParser, f: LegacyForm, classId: string)
    requires parse("") == None
    requires LegacyShaped(f)
    ensures LegacyExtract(parse, f) == StripAll(Extract(parse, AsForm(f, classId)))
  {
    LegacyGridAgrees(parse, f, classId, COLUMNS);
  }
}
