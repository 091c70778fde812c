/**
 * The location rows of the entry grid as values: the per-row edits
 * (`rows.map`), removal (`rows.filter`), lookup (`rows.find`), the
 * auto-append rules and the seeding of rows from region associations.
 */
module RowStore {
  import opened Types
  import opened Seqs

  /** The row fields the grid's selects edit through updateEntryRow. */
  datatype RowField = ElevatorField | TownField

  function FieldValue(row: EntryRow, field: RowField): string {
    match field
    case ElevatorField => row.elevatorId
    case TownField => row.townId
  }

  /** `{ ...row, [field]: value }`. */
  function WithField(row: EntryRow, field: RowField, value: string): (r: EntryRow)
    ensures FieldValue(r, field) == value
    ensures r.id == row.id && r.cashPrices == row.cashPrices
    ensures forall g: RowField | g != field :: FieldValue(r, g) == FieldValue(row, g)
  {
    match field
    case ElevatorField => row.(elevatorId := value)
    case TownField => row.(townId := value)
  }

  /** `rows.map(row => row.id === id ? { ...row, [field]: value } : row)`. */
  function EditRows(rows: seq<EntryRow>, id: RowId, field: RowField, value: string): seq<EntryRow> {
    seq(|rows|, i requires 0 <= i < |rows| => if rows[i].id == id then WithField(rows[i], field, value) else rows[i])
  }

  /**
   * updateEntryRow's map changes the named field of the rows with the given
   * id and nothing else: ids, prices and the other field stay, other rows stay.
   */
  lemma EditRowsFrame(rows: seq<EntryRow>, id: RowId, field: RowField, value: string)
    ensures |EditRows(rows, id, field, value)| == |rows|
    ensures forall i | 0 <= i < |rows| ::
              var r := EditRows(rows, id, field, value)[i];
              && r.id == rows[i].id && r.cashPrices == rows[i].cashPrices
              && (forall g: RowField | g != field :: FieldValue(r, g) == FieldValue(rows[i], g))
              && (rows[i].id == id ==> FieldValue(r, field) == value)
              && (rows[i].id != id ==> r == rows[i])
  {
  }

  /** `{ ...row, cash_prices: newCashPrices }` with `newCashPrices[c] = value`. */
  function WithPrice(row: EntryRow, c: nat, value: string): EntryRow
    requires c < |row.cashPrices|
  {
    row.(cashPrices := row.cashPrices[c := value])
  }

  /** updateCashPrice's map over the rows. */
  function EditPrices(rows: seq<EntryRow>, id: RowId, c: nat, value: string): seq<EntryRow>
    requires RowsShaped(rows) && c < COLUMNS
  {
    seq(|rows|, i requires 0 <= i < |rows| => if rows[i].id == id then WithPrice(rows[i], c, value) else rows[i])
  }

  /**
   * updateCashPrice's map changes only price cell `c` of the rows with the
   * given id, keeps six cells in every row, and leaves every other row as it was.
   */
  lemma EditPricesFrame(rows: seq<EntryRow>, id: RowId, c: nat, value: string)
    requires RowsShaped(rows) && c < COLUMNS
    ensures RowsShaped(EditPrices(rows, id, c, value))
    ensures |EditPrices(rows, id, c, value)| == |rows|
    ensures forall i | 0 <= i < |rows| ::
              var r := EditPrices(rows, id, c, value)[i];
              && r.id == rows[i].id && r.elevatorId == rows[i].elevatorId && r.townId == rows[i].townId
              && (rows[i].id == id ==> r.cashPrices[c] == value)
              && (forall d | 0 <= d < COLUMNS && d != c :: r.cashPrices[d] == rows[i].cashPrices[d])
              && (rows[i].id != id ==> r == rows[i])
  {
  }

  /** `rows.find(row => row.id === id)`: the first row with that id. */
  function Find(rows: seq<EntryRow>, id: RowId): (r: Option<EntryRow>)
    ensures r.Some? <==> exists i :: 0 <= i < |rows| && rows[i].id == id
    ensures r.Some? ==> r.value in rows && r.value.id == id
    ensures r.Some? ==> exists i | 0 <= i < |rows| :: rows[i] == r.value && forall j | 0 <= j < i :: rows[j].id != id
  {
    FindFirst(rows, (row: EntryRow) => row.id == id)
  }

  /** `rows.filter(row => row.id !== id)`. */
  function WithoutRow(rows: seq<EntryRow>, id: RowId): seq<EntryRow> {
    Filter(rows, (row: EntryRow) => row.id != id)
  }

  /** Row ids are pairwise distinct. */
  ghost predicate DistinctIds(rows: seq<EntryRow>) {
    DistinctBy(rows, (row: EntryRow) => row.id)
  }

  /**
   * With distinct ids, removal drops exactly the row with that id when there
   * is one and nothing otherwise, keeps the order of the others and keeps ids distinct.
   */
  lemma WithoutRowSpec(rows: seq<EntryRow>, id: RowId)
    requires DistinctIds(rows)
    ensures DistinctIds(WithoutRow(rows, id))
    ensures |WithoutRow(rows, id)| == if Find(rows, id).Some? then |rows| - 1 else |rows|
    ensures forall row | row in WithoutRow(rows, id) :: row in rows && row.id != id
    ensures forall row | row in rows && row.id != id :: row in WithoutRow(rows, id)
    ensures Subsequence(WithoutRow(rows, id), rows)
  {
    var key := (row: EntryRow) => row.id;
    var p := (row: EntryRow) => row.id != id;
    FilterOutDistinct(rows, key, id, p);
    FilterIsSubsequence(rows, p);
    assert HasKey(rows, key, id) <==> exists i :: 0 <= i < |rows| && rows[i].id == id;
  }

  /**
   * updateEntryRow's auto-append, judged on the rows before the edit: a town
   * is being chosen, the value is non-empty, the row already has an elevator
   * and it is the last row.
   */
  predicate AppendsAfterEdit(rows: seq<EntryRow>, id: RowId, field: RowField, value: string) {
    && Find(rows, id).Some?
    && field == TownField && Truthy(value) && Truthy(Find(rows, id).value.elevatorId)
    && |rows| > 0 && rows[|rows| - 1].id == id
  }

  /**
   * updateCashPrice's auto-append, judged on the rows before the edit: the
   * value is non-empty, the row has elevator and town and it is the last row.
   */
  predicate AppendsAfterPrice(rows: seq<EntryRow>, id: RowId, value: string) {
    && Find(rows, id).Some?
    && Truthy(value) && Addressable(Find(rows, id).value)
    && |rows| > 0 && rows[|rows| - 1].id == id
  }

  /** The id a seeded row gets: `region-i`, or `all-regions-i` for the whole crop class. */
  function SeededId(allRegions: bool, i: nat): RowId {
    if allRegions then AllRegions(i) else Region(i)
  }

  /** One row per association, elevator and town copied, prices empty, then one blank row. */
  function SeedRows(assocs: seq<RegionAssociation>, allRegions: bool, tick: nat): seq<EntryRow> {
    seq(|assocs|, i requires 0 <= i < |assocs| =>
          EntryRow(SeededId(allRegions, i), assocs[i].elevatorId, assocs[i].townId, EMPTY_PRICES))
    + [BlankRow(Stamp(tick))]
  }

  /**
   * Seeding yields |assocs| + 1 shaped rows with distinct ids: row i carries
   * association i's elevator and town and empty prices, and the last row is blank.
   */
  lemma SeedRowsSpec(assocs: seq<RegionAssociation>, allRegions: bool, tick: nat)
    ensures var rows := SeedRows(assocs, allRegions, tick);
      && |rows| == |assocs| + 1
      && RowsShaped(rows)
      && DistinctIds(rows)
      && (forall i | 0 <= i < |assocs| ::
            && rows[i].id == SeededId(allRegions, i)
            && rows[i].elevatorId == assocs[i].elevatorId && rows[i].townId == assocs[i].townId
            && rows[i].cashPrices == EMPTY_PRICES)
      && rows[|assocs|] == BlankRow(Stamp(tick))
  {
    var rows := SeedRows(assocs, allRegions, tick);
    forall i, j | 0 <= i < j < |rows| ensures rows[i].id != rows[j].id {
      if j < |assocs| {
        assert rows[i].id == SeededId(allRegions, i) && rows[j].id == SeededId(allRegions, j);
      }
    }
  }

  lemma SeedRowsFresh(assocs: seq<RegionAssociation>, allRegions: bool, tick: nat)
    ensures RowsValid(SeedRows(assocs, allRegions, tick), tick + 1)
  {
    SeedRowsSpec(assocs, allRegions, tick);
  }

  // ---------------------------------------------------------------------------
  // The invariant of the row store

  /** No row carries a timestamp id at or after `tick`, so `Stamp(tick)` is fresh. */
  predicate StampsBelow(rows: seq<EntryRow>, tick: nat) {
    forall i | 0 <= i < |rows| :: rows[i].id.Stamp? ==> rows[i].id.tick < tick
  }

  /** At least one row, six price cells per row, distinct ids, and `tick` unused. */
  ghost predicate RowsValid(rows: seq<EntryRow>, tick: nat) {
    |rows| >= 1 && RowsShaped(rows) && DistinctIds(rows) && StampsBelow(rows, tick)
  }

  /** addEntryRow: one blank row with a fresh id after the existing ones. */
  function AppendBlank(rows: seq<EntryRow>, tick: nat): seq<EntryRow> {
    rows + [BlankRow(Stamp(tick))]
  }

  /** Appending a blank row keeps every existing row, adds exactly one, and keeps the invariant with the next tick. */
  lemma AppendBlankSpec(rows: seq<EntryRow>, tick: nat)
    requires RowsShaped(rows) && DistinctIds(rows) && StampsBelow(rows, tick)
    ensures var r := AppendBlank(rows, tick);
      && |r| == |rows| + 1 && r[..|rows|] == rows && r[|rows|] == BlankRow(Stamp(tick))
      && RowsValid(r, tick + 1)
  {
    var r := AppendBlank(rows, tick);
    forall i, j | 0 <= i < j < |r| ensures r[i].id != r[j].id {
      if j == |rows| {
        assert r[i] == rows[i];
      } else {
        assert r[i] == rows[i] && r[j] == rows[j];
      }
    }
  }

  /** A rewrite that keeps every row's id and shape keeps the invariant. */
  lemma SameIdsValid(a: seq<EntryRow>, b: seq<EntryRow>, tick: nat)
    requires RowsValid(a, tick) && |a| == |b|
    requires forall i | 0 <= i < |a| :: b[i].id == a[i].id && |b[i].cashPrices| == |a[i].cashPrices|
    ensures RowsValid(b, tick)
  {
    forall i, j | 0 <= i < j < |b| ensures b[i].id != b[j].id {
      assert a[i].id != a[j].id;
    }
  }

  /** Removing a row from more than one keeps the invariant. */
  lemma WithoutRowValid(rows: seq<EntryRow>, id: RowId, tick: nat)
    requires RowsValid(rows, tick) && |rows| > 1
    ensures RowsValid(WithoutRow(rows, id), tick)
  {
    WithoutRowSpec(rows, id);
    var r := WithoutRow(rows, id);
    forall i | 0 <= i < |r| ensures |r[i].cashPrices| == COLUMNS && (r[i].id.Stamp? ==> r[i].id.tick < tick) {
      assert r[i] in rows;
    }
  }

  // ---------------------------------------------------------------------------
  // Edit, then append

  /** updateEntryRow: the edit, followed by one blank row when AppendsAfterEdit holds. */
  function EditRowThenAppend(rows: seq<EntryRow>, id: RowId, field: RowField, value: string, tick: nat): seq<EntryRow> {
    var edited := EditRows(rows, id, field, value);
    if AppendsAfterEdit(rows, id, field, value) then AppendBlank(edited, tick) else edited
  }

  /** updateCashPrice: the price edit, followed by one blank row when AppendsAfterPrice holds. */
  function PriceThenAppend(rows: seq<EntryRow>, id: RowId, c: nat, value: string, tick: nat): seq<EntryRow>
    requires RowsShaped(rows) && c < COLUMNS
  {
    var edited := EditPrices(rows, id, c, value);
    if AppendsAfterPrice(rows, id, value) then AppendBlank(edited, tick) else edited
  }

  /**
   * The edit survives the append: the first |rows| rows are the edited rows,
   * exactly one blank row follows iff the append rule fires, and the invariant holds.
   */
  lemma EditRowThenAppendSpec(rows: seq<EntryRow>, id: RowId, field: RowField, value: string, tick: nat)
    requires RowsValid(rows, tick)
    ensures var r := EditRowThenAppend(rows, id, field, value, tick);
      && r[..|rows|] == EditRows(rows, id, field, value)
      && (|r| == |rows| + 1 <==> AppendsAfterEdit(rows, id, field, value))
      && (|r| == |rows| || |r| == |rows| + 1)
      && (|r| > |rows| ==> r[|rows|] == BlankRow(Stamp(tick)))
      && RowsValid(r, if |r| > |rows| then tick + 1 else tick)
  {
    var edited := EditRows(rows, id, field, value);
    EditRowsFrame(rows, id, field, value);
    SameIdsValid(rows, edited, tick);
    if AppendsAfterEdit(rows, id, field, value) {
      AppendBlankSpec(edited, tick);
    } else {
      assert edited[..|rows|] == edited;
    }
  }

  lemma PriceThenAppendSpec(rows: seq<EntryRow>, id: RowId, c: nat, value: string, tick: nat)
    requires RowsValid(rows, tick) && c < COLUMNS
    ensures var r := PriceThenAppend(rows, id, c, value, tick);
      && r[..|rows|] == EditPrices(rows, id, c, value)
      && (|r| == |rows| + 1 <==> AppendsAfterPrice(rows, id, value))
      && (|r| == |rows| || |r| == |rows| + 1)
      && (|r| > |rows| ==> r[|rows|] == BlankRow(Stamp(tick)))
      && RowsValid(r, if |r| > |rows| then tick + 1 else tick)
  {
    var edited := EditPrices(rows, id, c, value);
    EditPricesFrame(rows, id, c, value);
    SameIdsValid(rows, edited, tick);
    if AppendsAfterPrice(rows, id, value) {
      AppendBlankSpec(edited, tick);
    } else {
      assert edited[..|rows|] == edited;
    }
  }

  // ---------------------------------------------------------------------------
  // The auto-append as written

  /**
   * updateEntryRow as written: the edit is queued as an updater, then
   * addEntryRow sets `[...entryRows, blank]` from the rows captured before the
   * edit. React applies the queue in order, so when the append fires the
   * plain value replaces the edited rows and the edit is lost.
   */
  function StaleEditRowThenAppend(rows: seq<EntryRow>, id: RowId, field: RowField, value: string, tick: nat): seq<EntryRow> {
    if AppendsAfterEdit(rows, id, field, value) then AppendBlank(rows, tick) else EditRows(rows, id, field, value)
  }

  /** updateCashPrice as written, with the same lost update. */
  function StalePriceThenAppend(rows: seq<EntryRow>, id: RowId, c: nat, value: string, tick: nat): seq<EntryRow>
    requires RowsShaped(rows) && c < COLUMNS
  {
    if AppendsAfterPrice(rows, id, value) then AppendBlank(rows, tick) else EditPrices(rows, id, c, value)
  }

  /**
   * Choosing town "t1" for the only row, whose elevator is "e1": as written
   * the row keeps an empty town while a blank row is appended; edit-then-append keeps "t1".
   */
  lemma StaleAppendDropsTown()
    ensures var rows := [EntryRow(Initial, "e1", "", EMPTY_PRICES)];
      && |StaleEditRowThenAppend(rows, Initial, TownField, "t1", 0)| == 2
      && StaleEditRowThenAppend(rows, Initial, TownField, "t1", 0)[0].townId == ""
      && EditRowThenAppend(rows, Initial, TownField, "t1", 0)[0].townId == "t1"
  {
    var rows := [EntryRow(Initial, "e1", "", EMPTY_PRICES)];
    assert Find(rows, Initial) == Some(rows[0]);
    assert EditRows(rows, Initial, TownField, "t1")[0].townId == "t1";
  }

  /**
   * Typing price "5" in the first column of the only, addressable row: as
   * written the cell stays empty; edit-then-append stores "5".
   */
  lemma StaleAppendDropsPrice()
    ensures var rows := [EntryRow(Initial, "e1", "t1", EMPTY_PRICES)];
      && StalePriceThenAppend(rows, Initial, 0, "5", 0)[0].cashPrices[0] == ""
      && PriceThenAppend(rows, Initial, 0, "5", 0)[0].cashPrices[0] == "5"
  {
    var rows := [EntryRow(Initial, "e1", "t1", EMPTY_PRICES)];
    assert Find(rows, Initial) == Some(rows[0]);
    assert EditPrices(rows, Initial, 0, "5")[0].cashPrices[0] == "5";
  }
}
