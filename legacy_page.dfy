/**
 * The entries page: an older single-screen version of the entry grid and
 * the entries list. Its save loop is proved against LegacyRecords, its
 * column-0 auto-fill against Periods, its rows against RowStore and its list
 * handlers against EntryList.
 */
module LegacyPage {
  import opened Types
  import opened Periods
  import opened RowStore
  import opened EntryList
  import opened Validation
  import opened LegacyRecords

  /** The `for (const row of entryRows)` body for row `r` of column `monthIndex`. */
  method PushRow(parse: NumberParser, f: LegacyForm, monthIndex: nat, r: nat,
                 month: string, year: int, futures: Option<real>, entriesIn: seq<LegacyInsert>)
    returns (entriesToInsert: seq<LegacyInsert>)
    requires LegacyShaped(f) && monthIndex < COLUMNS && r < |f.rows|
    requires month == f.months[monthIndex] && year == f.years[monthIndex]
    requires futures == NumberOrNull(parse, f.futures[monthIndex])
    requires Truthy(month) && year != 0
    ensures entriesToInsert == entriesIn + LegacyCellRecord(parse, f, monthIndex, r)
  {
    entriesToInsert := entriesIn;
    var row := f.rows[r];
    if !Truthy(row.elevatorId) || !Truthy(row.townId) {
      assert entriesIn + [] == entriesIn;
      return;
    }
    var cashPrice := NumberOrNull(parse, row.cashPrices[monthIndex]);
    if cashPrice.None? {
      assert entriesIn + [] == entriesIn;
      return;
    }
    entriesToInsert := entriesToInsert + [LegacyInsert(
      f.date, f.crop, row.elevatorId, row.townId, month, year, cashPrice.value, futures, "")];
  }

  /** One iteration of the column loop: skip a column without month or year, else visit every row. */
  method PushColumn(parse: NumberParser, f: LegacyForm, monthIndex: nat, entriesIn: seq<LegacyInsert>)
    returns (entriesToInsert: seq<LegacyInsert>)
    requires LegacyShaped(f) && monthIndex < COLUMNS
    requires entriesIn == LegacyGridRecords(parse, f, monthIndex)
    ensures entriesToInsert == LegacyGridRecords(parse, f, monthIndex + 1)
  {
    var month := f.months[monthIndex];
    var year := f.years[monthIndex];
    var futures := NumberOrNull(parse, f.futures[monthIndex]);
    assert LegacyGridRecords(parse, f, monthIndex + 1) == entriesIn + LegacyColumnRecords(parse, f, monthIndex, |f.rows|);
    if !Truthy(month) || year == 0 {
      LegacyColumnNone(parse, f, monthIndex, |f.rows|);
      assert entriesIn + [] == entriesIn;
      return entriesIn;
    }
    entriesToInsert := entriesIn;
    var r := 0;
    while r < |f.rows|
      invariant 0 <= r <= |f.rows|
      invariant entriesToInsert == entriesIn + LegacyColumnRecords(parse, f, monthIndex, r)
    {
      ghost var done := LegacyColumnRecords(parse, f, monthIndex, r);
      entriesToInsert := PushRow(parse, f, monthIndex, r, month, year, futures, entriesToInsert);
      assert entriesIn + done + LegacyCellRecord(parse, f, monthIndex, r)
          == entriesIn + (done + LegacyCellRecord(parse, f, monthIndex, r));
      r := r + 1;
    }
  }

  lemma {:induction false} LegacyColumnNone(parse: NumberParser, f: LegacyForm, c: nat, n: nat)
    requires LegacyShaped(f) && c < COLUMNS && n <= |f.rows|
    requires !Truthy(f.months[c]) || f.years[c] == 0
    ensures LegacyColumnRecords(parse, f, c, n) == []
  {
    if n > 0 {
      LegacyColumnNone(parse, f, c, n - 1);
    }
  }

  /** The extraction loop of handleSaveEntries. */
  method ExtractEntries(parse: NumberParser, f: LegacyForm) returns (entriesToInsert: seq<LegacyInsert>)
    requires LegacyShaped(f)
    ensures entriesToInsert == LegacyExtract(parse, f)
  {
    entriesToInsert := [];
    var monthIndex := 0;
    while monthIndex < COLUMNS
      invariant 0 <= monthIndex <= COLUMNS
      invariant entriesToInsert == LegacyGridRecords(parse, f, monthIndex)
    {
      entriesToInsert := PushColumn(parse, f, monthIndex, entriesToInsert);
      monthIndex := monthIndex + 1;
    }
  }

  /**
   * The push loop of updateEntryMonth for column 0: `value` (month number
   * `monthIndex`) in the current year, then the five following months.
   */
  method FillFromFirst(value: string, monthIndex: nat, currentYear: int)
    returns (newMonths: seq<string>, newYears: seq<int>)
    requires monthIndex < 12 && MonthName(monthIndex) == value
    ensures Schedule(newMonths, newYears) == Propagated(EMPTY_SCHEDULE, 0, monthIndex, currentYear)
  {
    newMonths, newYears := [value], [currentYear];
    var i := 1;
    while i < COLUMNS
      invariant 1 <= i <= COLUMNS && |newMonths| == i && |newYears| == i
      invariant forall c | 0 <= c < i :: newMonths[c] == PropagatedMonth(EMPTY_SCHEDULE, 0, monthIndex, c)
      invariant forall c | 0 <= c < i :: newYears[c] == PropagatedYear(EMPTY_SCHEDULE, 0, monthIndex, currentYear, c)
    {
      var nextMonth, yearIncrement := MonthAfter(monthIndex, i);
      newMonths := newMonths + [nextMonth];
      newYears := newYears + [currentYear + yearIncrement];
      i := i + 1;
    }
    assert newMonths == Propagated(EMPTY_SCHEDULE, 0, monthIndex, currentYear).months;
    assert newYears == Propagated(EMPTY_SCHEDULE, 0, monthIndex, currentYear).years;
  }

  /** How handleSaveEntries ended, and what it handed to the store. */
  datatype LegacySaveOutcome =
    | NothingToSave
    | SaveFailed(entries: seq<LegacyInsert>)
    | SavedAll(entries: seq<LegacyInsert>)

  class GrainEntriesPage {
    var entries: seq<ListedEntry>
    var filters: Filters
    var sort: SortConfig
    var searchTerm: string
    var appliedFilters: Filters
    var appliedSort: SortConfig
    var appliedSearchTerm: string

    var date: string
    var crop: string
    var months: seq<string>
    var years: seq<int>
    var futures: seq<string>
    var rows: seq<EntryRow>
    /** Stands in for Date.now(): the timestamp the next appended row gets. */
    var nextTick: nat

    ghost predicate Valid()
      reads this
    {
      |months| == COLUMNS && |years| == COLUMNS && |futures| == COLUMNS && RowsValid(rows, nextTick)
    }

    function Headers(): Schedule
      reads this
    {
      Schedule(months, years)
    }

    function AsLegacyForm(): LegacyForm
      reads this
    {
      LegacyForm(date, crop, months, years, futures, rows)
    }

    /** The form as the page clears it after a save. */
    predicate IsReset(today: string)
      reads this
    {
      && date == today && crop == ""
      && Headers() == EMPTY_SCHEDULE && futures == EMPTY_FUTURES
      && rows == [BlankRow(Initial)]
    }

    twostate predicate ListKept()
      reads this
    {
      && entries == old(entries)
      && filters == old(filters) && sort == old(sort) && searchTerm == old(searchTerm)
      && appliedFilters == old(appliedFilters) && appliedSort == old(appliedSort) && appliedSearchTerm == old(appliedSearchTerm)
    }

    twostate predicate FormKept()
      reads this
    {
      && date == old(date) && crop == old(crop) && months == old(months) && years == old(years)
      && futures == old(futures) && rows == old(rows) && nextTick == old(nextTick)
    }

    constructor(today: string, loaded: seq<ListedEntry>)
      ensures Valid() && IsReset(today) && nextTick == 0
      ensures entries == loaded
      ensures filters == map[] && appliedFilters == map[]
      ensures sort == DEFAULT_SORT && appliedSort == DEFAULT_SORT
      ensures searchTerm == "" && appliedSearchTerm == ""
    {
      entries := loaded;
      filters, appliedFilters := map[], map[];
      sort, appliedSort := DEFAULT_SORT, DEFAULT_SORT;
      searchTerm, appliedSearchTerm := "", "";
      date, crop := today, "";
      months, years, futures := EMPTY_SCHEDULE.months, EMPTY_SCHEDULE.years, EMPTY_FUTURES;
      rows := [BlankRow(Initial)];
      nextTick := 0;
    }

    // -------------------------------------------------------------------------
    // The list

    /** handleSearch: the pending filters, sort and term become the applied ones. */
    method HandleSearch()
      modifies this
      ensures appliedFilters == old(filters) && appliedSort == old(sort) && appliedSearchTerm == old(searchTerm)
      ensures filters == old(filters) && sort == old(sort) && searchTerm == old(searchTerm)
      ensures entries == old(entries) && FormKept()
    {
      appliedFilters := filters;
      appliedSort := sort;
      appliedSearchTerm := searchTerm;
    }

    method HandleSort(field: string)
      modifies this
      ensures sort == ToggleSort(old(sort), field)
      ensures filters == old(filters) && searchTerm == old(searchTerm) && entries == old(entries)
      ensures appliedFilters == old(appliedFilters) && appliedSort == old(appliedSort) && appliedSearchTerm == old(appliedSearchTerm)
      ensures FormKept()
    {
      sort := ToggleSort(sort, field);
    }

    method HandleFilterChange(key: FilterKey, value: string)
      modifies this
      ensures filters == FilterChange(old(filters), key, value)
      ensures sort == old(sort) && searchTerm == old(searchTerm) && entries == old(entries)
      ensures appliedFilters == old(appliedFilters) && appliedSort == old(appliedSort) && appliedSearchTerm == old(appliedSearchTerm)
      ensures FormKept()
    {
      filters := FilterChange(filters, key, value);
    }

    /** handleDeleteEntry, with `deleted` the store's answer to softDeleteEntry. */
    method HandleDeleteEntry(id: string, deleted: bool)
      modifies this
      ensures entries == if deleted then RemoveById(old(entries), id) else old(entries)
      ensures filters == old(filters) && sort == old(sort) && searchTerm == old(searchTerm)
      ensures appliedFilters == old(appliedFilters) && appliedSort == old(appliedSort) && appliedSearchTerm == old(appliedSearchTerm)
      ensures FormKept()
    {
      if deleted {
        entries := RemoveById(entries, id);
      }
    }

    /** filteredEntries: the loaded entries searched with the applied term. */
    function FilteredEntries(lower: string -> string): seq<ListedEntry>
      reads this
    {
      LegacySearch(entries, appliedSearchTerm, lower)
    }

    // -------------------------------------------------------------------------
    // The form

    /**
     * updateEntryMonth: sets `months[index]`; a month label chosen in column 0
     * then rewrites all six columns from it, starting at `currentYear`.
     */
    method UpdateEntryMonth(index: nat, value: string, currentYear: int)
      requires Valid() && index < COLUMNS
      modifies this
      ensures Valid()
      ensures index == 0 && Truthy(value) && IndexOf(value) != -1 ==>
        Headers() == Propagated(old(Headers()), 0, IndexOf(value), currentYear)
      ensures !(index == 0 && Truthy(value) && IndexOf(value) != -1) ==>
        months == old(months)[index := value] && years == old(years)
      ensures futures == old(futures) && rows == old(rows) && nextTick == old(nextTick)
      ensures date == old(date) && crop == old(crop) && ListKept()
    {
      months := months[index := value];
      if index == 0 && Truthy(value) {
        var monthIndex := IndexOf(value);
        if monthIndex != -1 {
          var newMonthsArray, newYearsArray := FillFromFirst(value, monthIndex, currentYear);
          PropagatedAgreeBelow(EMPTY_SCHEDULE, old(Headers()), 0, monthIndex, currentYear);
          months, years := newMonthsArray, newYearsArray;
        }
      }
    }

    method UpdateEntryYear(index: nat, value: int)
      requires Valid() && index < COLUMNS
      modifies this
      ensures Valid()
      ensures years == old(years)[index := value] && months == old(months)
      ensures futures == old(futures) && rows == old(rows) && nextTick == old(nextTick)
      ensures date == old(date) && crop == old(crop) && ListKept()
    {
      years := years[index := value];
    }

    method UpdateEntryFutures(index: nat, value: string)
      requires Valid() && index < COLUMNS
      modifies this
      ensures Valid()
      ensures futures == old(futures)[index := value]
      ensures Headers() == old(Headers()) && rows == old(rows) && nextTick == old(nextTick)
      ensures date == old(date) && crop == old(crop) && ListKept()
    {
      futures := futures[index := value];
    }

    method AddEntryRow()
      requires Valid()
      modifies this
      ensures Valid()
      ensures rows == AppendBlank(old(rows), old(nextTick)) && nextTick == old(nextTick) + 1
      ensures Headers() == old(Headers()) && futures == old(futures)
      ensures date == old(date) && crop == old(crop) && ListKept()
    {
      AppendBlankSpec(rows, nextTick);
      rows := rows + [BlankRow(Stamp(nextTick))];
      nextTick := nextTick + 1;
    }

    method RemoveEntryRow(id: RowId)
      requires Valid()
      modifies this
      ensures Valid()
      ensures rows == if |old(rows)| > 1 then WithoutRow(old(rows), id) else old(rows)
      ensures nextTick == old(nextTick) && Headers() == old(Headers()) && futures == old(futures)
      ensures date == old(date) && crop == old(crop) && ListKept()
    {
      if |rows| > 1 {
        WithoutRowValid(rows, id, nextTick);
        rows := WithoutRow(rows, id);
      }
    }

    /** updateEntryRow: as on the entry tab, the edit and then the append rule. */
    method UpdateEntryRow(id: RowId, field: RowField, value: string)
      requires Valid()
      modifies this
      ensures Valid()
      ensures rows == EditRowThenAppend(old(rows), id, field, value, old(nextTick))
      ensures nextTick == if AppendsAfterEdit(old(rows), id, field, value) then old(nextTick) + 1 else old(nextTick)
      ensures Headers() == old(Headers()) && futures == old(futures)
      ensures date == old(date) && crop == old(crop) && ListKept()
    {
      var append := AppendsAfterEdit(rows, id, field, value);
      EditRowsFrame(rows, id, field, value);
      SameIdsValid(rows, EditRows(rows, id, field, value), nextTick);
      rows := EditRows(rows, id, field, value);
      if append {
        AddEntryRow();
      }
    }

    /** updateCashPrice: only the one cell changes and no row is appended. */
    method UpdateCashPrice(id: RowId, monthIndex: nat, value: string)
      requires Valid() && monthIndex < COLUMNS
      modifies this
      ensures Valid()
      ensures rows == EditPrices(old(rows), id, monthIndex, value) && |rows| == |old(rows)|
      ensures nextTick == old(nextTick) && Headers() == old(Headers()) && futures == old(futures)
      ensures date == old(date) && crop == old(crop) && ListKept()
    {
      EditPricesFrame(rows, id, monthIndex, value);
      SameIdsValid(rows, EditPrices(rows, id, monthIndex, value), nextTick);
      rows := EditPrices(rows, id, monthIndex, value);
    }

    /**
     * handleSaveEntries: no records means no insert and no change; a failed
     * insert changes nothing; a successful one clears the form.
     * `insertSucceeds` is the store's answer to insertEntries.
     */
    method HandleSaveEntries(parse: NumberParser, insertSucceeds: bool, today: string)
      returns (outcome: LegacySaveOutcome)
      requires Valid()
      modifies this
      ensures Valid()
      ensures var batch := LegacyExtract(parse, old(AsLegacyForm()));
        && (|batch| == 0 ==> outcome == NothingToSave)
        && (|batch| > 0 && !insertSucceeds ==> outcome == SaveFailed(batch))
        && (|batch| > 0 && insertSucceeds ==> outcome == SavedAll(batch))
      ensures !outcome.SavedAll? ==> FormKept()
      ensures outcome.SavedAll? ==> IsReset(today) && nextTick == old(nextTick)
      ensures ListKept()
    {
      var entriesToInsert := ExtractEntries(parse, AsLegacyForm());
      if |entriesToInsert| == 0 {
        return NothingToSave;
      }
      if !insertSucceeds {
        return SaveFailed(entriesToInsert);
      }
      date, crop := today, "";
      months, years, futures := EMPTY_SCHEDULE.months, EMPTY_SCHEDULE.years, EMPTY_FUTURES;
      rows := [BlankRow(Initial)];
      outcome := SavedAll(entriesToInsert);
    }
  }
}
