/**
 * Shared vocabulary of the grain-entry grid: the month labels, location rows,
 * the record handed to the store, and the number reading the form relies on.
 */
module Types {

  datatype Option<+T> = None | Some(value: T)

  /** Number of period columns in the grid. */
  const COLUMNS: nat := 6

  /** The month label at position `i` of the grid's month list. */
  function MonthName(i: nat): string
    requires i < 12
  {
    if i == 0 then "Jan" else if i == 1 then "Feb" else if i == 2 then "Mar"
    else if i == 3 then "Apr" else if i == 4 then "May" else if i == 5 then "Jun"
    else if i == 6 then "Jul" else if i == 7 then "Aug" else if i == 8 then "Sep"
    else if i == 9 then "Oct" else if i == 10 then "Nov" else "Dec"
  }

  /** The twelve month labels offered by the grid, in calendar order. */
  const MONTHS: seq<string> := seq(12, i requires 0 <= i < 12 => MonthName(i))

  /** MONTHS is the source's literal list of labels. */
  lemma MonthNames()
    ensures MONTHS == ["Jan", "Feb", "Mar", "Apr", "May", "Jun", "Jul", "Aug", "Sep", "Oct", "Nov", "Dec"]
  {
  }

  /** `MONTHS.indexOf(m)`: the first position of `m` in MONTHS, or -1. */
  function IndexOf(m: string): (i: int)
    ensures -1 <= i < 12
    ensures i >= 0 ==> MonthName(i) == m && forall k | 0 <= k < i :: MonthName(k) != m
    ensures i == -1 <==> forall k | 0 <= k < 12 :: MonthName(k) != m
  {
    IndexFrom(m, 0)
  }

  function IndexFrom(m: string, j: nat): (i: int)
    requires j <= 12
    ensures i == -1 || j <= i < 12
    ensures i >= 0 ==> MonthName(i) == m && forall k | j <= k < i :: MonthName(k) != m
    ensures i == -1 <==> forall k | j <= k < 12 :: MonthName(k) != m
    decreases 12 - j
  {
    if j == 12 then -1
    else if MonthName(j) == m then j
    else IndexFrom(m, j + 1)
  }

  /**
   * parseFloat, as seen by the form: None stands for NaN (no numeric prefix).
   * The grid never assumes anything else about it.
   */
  type NumberParser = string -> Option<real>

  /**
   * `parseFloat(s) || null`: NaN and 0 are both falsy in JavaScript, so a
   * zero reading counts as absent just like one that does not parse.
   */
  function NumberOrNull(parse: NumberParser, s: string): (r: Option<real>)
    ensures r != Some(0.0)
    ensures r.Some? ==> parse(s) == r
    ensures parse(s).Some? && parse(s).value != 0.0 ==> r == parse(s)
  {
    match parse(s)
    case Some(v) => if v == 0.0 then None else Some(v)
    case None => None
  }

  /**
   * Identity of a location row. The source builds ids as the string "1" for
   * the initial row, "region-i" / "all-regions-i" for seeded rows and
   * Date.now() for appended rows; Date.now() is modelled by a tick counter.
   */
  datatype RowId = Initial | Region(index: nat) | AllRegions(index: nat) | Stamp(tick: nat)

  /** JavaScript truthiness of a string: `if (s)` holds iff `s` is non-empty. */
  predicate Truthy(s: string) {
    |s| > 0
  }

  /** A location row: elevator, town and one cash-price cell per column. */
  datatype EntryRow = EntryRow(id: RowId, elevatorId: string, townId: string, cashPrices: seq<string>)

  const EMPTY_PRICES: seq<string> := ["", "", "", "", "", ""]

  /** A fresh row with no location and six empty price cells. */
  function BlankRow(id: RowId): (r: EntryRow)
    ensures r.id == id && r.elevatorId == "" && r.townId == ""
    ensures |r.cashPrices| == COLUMNS && forall c :: 0 <= c < COLUMNS ==> r.cashPrices[c] == ""
  {
    EntryRow(id, "", "", EMPTY_PRICES)
  }

  /** A row is addressable once both its elevator and its town are chosen. */
  predicate Addressable(row: EntryRow) {
    Truthy(row.elevatorId) && Truthy(row.townId)
  }

  /** Every row has exactly one price cell per column. */
  predicate RowsShaped(rows: seq<EntryRow>) {
    forall i :: 0 <= i < |rows| ==> |rows[i].cashPrices| == COLUMNS
  }

  /** The record the grid hands to the store's bulk insert (GrainEntryInsert). */
  datatype GrainEntryInsert = GrainEntryInsert(
    date: string,
    cropId: string,
    classId: string,
    elevatorId: string,
    townId: string,
    month: string,
    year: int,
    cashPrice: real,
    futures: Option<real>,
    notes: string)

  /** A stored association of an elevator/town pair with a region and crop class. */
  datatype RegionAssociation = RegionAssociation(regionId: string, classId: string, elevatorId: string, townId: string)

  /** A crop class as listed by the reference data (only what the grid uses). */
  datatype CropClass = CropClass(id: string, cropId: string)
}
