/**
 * The new-entries tab: the form state its handlers update, one atomic
 * transition per handler. Periods supplies the column sequencer, RowStore
 * the row edits and Validator the save-time validation.
 */
module NewEntries {
  import opened Types
  import opened Seqs
  import opened Periods
  import opened RowStore
  import opened Validation
  import Validator

  /** `cropClasses.find(cc => cc.id === id)`. */
  function FindCropClass(cropClasses: seq<CropClass>, id: string): (r: Option<CropClass>)
    ensures r.Some? <==> exists i :: 0 <= i < |cropClasses| && cropClasses[i].id == id
    ensures r.Some? ==> r.value.id == id
  {
    FindFirst(cropClasses, (cc: CropClass) => cc.id == id)
  }

  /** How handleSaveEntries ended, and what it handed to the store. */
  datatype SaveOutcome =
    | UnknownCropClass
    | Rejected(errors: seq<ValidationError>)
    | InsertFailed(entries: seq<GrainEntryInsert>)
    | Saved(entries: seq<GrainEntryInsert>)

  class EntryGrid {
    var date: string
    var cropClass: string
    var region: string
    var months: seq<string>
    var years: seq<int>
    var futures: seq<string>
    var rows: seq<EntryRow>
    /** Stands in for Date.now(): the timestamp the next appended row gets. */
    var nextTick: nat
    var regionAssociations: seq<RegionAssociation>
    var validationErrors: seq<ValidationError>
    var showValidationErrors: bool
    /**
     * isAutoPopulating: cleared by a manual propagation, set again by the
     * timer that updateSubsequentColumns starts.
     */
    var autoPopulating: bool

    /** Six columns, and a row store with at least one shaped row and distinct ids. */
    ghost predicate Valid()
      reads this
    {
      |months| == COLUMNS && |years| == COLUMNS && |futures| == COLUMNS && RowsValid(rows, nextTick)
    }

    function Headers(): Schedule
      reads this
    {
      Schedule(months, years)
    }

    /** The arguments validateAndPrepareEntries receives, given the selected class's crop. */
    function AsForm(cropId: string): Form
      reads this
    {
      Form(date, cropClass, cropId, months, years, futures, rows)
    }

    /** The state resetForm leaves: today's date, no selection, empty headers and one blank row. */
    predicate IsReset(today: string)
      reads this
    {
      && date == today && cropClass == "" && region == ""
      && Headers() == EMPTY_SCHEDULE && futures == EMPTY_FUTURES
      && rows == [BlankRow(Initial)]
    }

    /** The fields no grid edit touches. */
    twostate predicate SelectionKept()
      reads this
    {
      && date == old(date) && cropClass == old(cropClass) && region == old(region)
      && regionAssociations == old(regionAssociations)
      && validationErrors == old(validationErrors) && showValidationErrors == old(showValidationErrors)
      && autoPopulating == old(autoPopulating)
    }

    /** Everything but the auto-populate flag keeps its value. */
    twostate predicate SelectionKeptButFlag()
      reads this
    {
      && date == old(date) && cropClass == old(cropClass) && region == old(region)
      && regionAssociations == old(regionAssociations)
      && validationErrors == old(validationErrors) && showValidationErrors == old(showValidationErrors)
    }

    twostate predicate RowsKept()
      reads this
    {
      rows == old(rows) && nextTick == old(nextTick)
    }

    constructor(today: string)
      ensures Valid() && IsReset(today)
      ensures nextTick == 0 && regionAssociations == []
      ensures validationErrors == [] && !showValidationErrors && autoPopulating
    {
      date, cropClass, region := today, "", "";
      months, years, futures := EMPTY_SCHEDULE.months, EMPTY_SCHEDULE.years, EMPTY_FUTURES;
      rows := [BlankRow(Initial)];
      nextTick := 0;
      regionAssociations := [];
      validationErrors, showValidationErrors := [], false;
      autoPopulating := true;
    }

    // -------------------------------------------------------------------------
    // Period headers

    /**
     * updateSubsequentColumns: nothing happens unless Propagates(month, year);
     * otherwise the headers become the propagation from `changedIndex` and
     * auto-population is switched off until the timer switches it on again.
     */
    method UpdateSubsequentColumns(changedIndex: nat, month: string, year: int)
      requires Valid() && changedIndex < COLUMNS
      modifies this
      ensures Valid()
      ensures Propagates(month, year) ==> Headers() == Propagated(old(Headers()), changedIndex, IndexOf(month), year)
      ensures !Propagates(month, year) ==> Headers() == old(Headers())
      ensures autoPopulating == (old(autoPopulating) && !Propagates(month, year))
      ensures futures == old(futures) && RowsKept() && SelectionKeptButFlag()
    {
      if !Truthy(month) || year == 0 {
        return;
      }
      var monthIndex := IndexOf(month);
      if monthIndex == -1 {
        return;
      }
      var newMonths := months[changedIndex := month];
      var newYears := years[changedIndex := year];
      PropagatedAgreeBelow(Schedule(newMonths, newYears), Headers(), changedIndex, monthIndex, year);
      newMonths, newYears := FillSubsequent(newMonths, newYears, changedIndex, monthIndex, year);
      autoPopulating := false;
      months, years := newMonths, newYears;
    }

    /** The timer started by updateSubsequentColumns: auto-population is on again. */
    method ReenableAutoPopulate()
      requires Valid()
      modifies this
      ensures Valid() && autoPopulating
      ensures Headers() == old(Headers()) && futures == old(futures) && RowsKept() && SelectionKeptButFlag()
    {
      autoPopulating := true;
    }

    /**
     * The auto-populate effect, run after the headers change: while the flag
     * is on, the headers become AutoPopulated of the headers before; while it
     * is off, nothing happens.
     */
    method AutoPopulate()
      requires Valid()
      modifies this
      ensures Valid()
      ensures Headers() == if old(autoPopulating) then AutoPopulated(old(Headers())) else old(Headers())
      ensures futures == old(futures) && RowsKept() && SelectionKept()
    {
      if !autoPopulating {
        return;
      }
      var firstValidIndex := FirstSet(Headers());
      if firstValidIndex != -1 {
        var startMonth := months[firstValidIndex];
        var startYear := years[firstValidIndex];
        var monthIndex := IndexOf(startMonth);
        if monthIndex != -1 {
          var newMonths, newYears := FillSubsequent(months, years, firstValidIndex, monthIndex, startYear);
          months, years := newMonths, newYears;
        }
      }
    }

    /**
     * updateEntryMonth: with a year already in the column, a non-empty month
     * goes through updateSubsequentColumns; otherwise only `months[index]` changes.
     */
    method UpdateEntryMonth(index: nat, value: string)
      requires Valid() && index < COLUMNS
      modifies this
      ensures Valid()
      ensures Truthy(value) && old(years[index]) != 0 ==>
        Headers() == (if IndexOf(value) != -1 then Propagated(old(Headers()), index, IndexOf(value), old(years[index])) else old(Headers()))
      ensures !(Truthy(value) && old(years[index]) != 0) ==> months == old(months)[index := value] && years == old(years)
      ensures autoPopulating == (old(autoPopulating) && !Propagates(value, old(years[index])))
      ensures futures == old(futures) && RowsKept() && SelectionKeptButFlag()
    {
      var currentYear := years[index];
      if Truthy(value) && currentYear != 0 {
        UpdateSubsequentColumns(index, value, currentYear);
      } else {
        months := months[index := value];
      }
    }

    /** updateEntryYear: the mirror image of UpdateEntryMonth. */
    method UpdateEntryYear(index: nat, value: int)
      requires Valid() && index < COLUMNS
      modifies this
      ensures Valid()
      ensures Truthy(old(months[index])) && value != 0 ==>
        Headers() == (if IndexOf(old(months[index])) != -1 then Propagated(old(Headers()), index, IndexOf(old(months[index])), value) else old(Headers()))
      ensures !(Truthy(old(months[index])) && value != 0) ==> years == old(years)[index := value] && months == old(months)
      ensures autoPopulating == (old(autoPopulating) && !Propagates(old(months[index]), value))
      ensures futures == old(futures) && RowsKept() && SelectionKeptButFlag()
    {
      var currentMonth := months[index];
      if Truthy(currentMonth) && value != 0 {
        UpdateSubsequentColumns(index, currentMonth, value);
      } else {
        years := years[index := value];
      }
    }

    /** updateEntryFutures: only `futures[index]` changes. */
    method UpdateEntryFutures(index: nat, value: string)
      requires Valid() && index < COLUMNS
      modifies this
      ensures Valid()
      ensures futures == old(futures)[index := value]
      ensures Headers() == old(Headers()) && RowsKept() && SelectionKept()
    {
      futures := futures[index := value];
    }

    // -------------------------------------------------------------------------
    // Rows

    /** addEntryRow: one blank row with a fresh id after the existing rows. */
    method AddEntryRow()
      requires Valid()
      modifies this
      ensures Valid()
      ensures rows == AppendBlank(old(rows), old(nextTick)) && nextTick == old(nextTick) + 1
      ensures Headers() == old(Headers()) && futures == old(futures) && SelectionKept()
    {
      AppendBlankSpec(rows, nextTick);
      rows := rows + [BlankRow(Stamp(nextTick))];
      nextTick := nextTick + 1;
    }

    /** removeEntryRow: drops the rows with that id unless only one row is left. */
    method RemoveEntryRow(id: RowId)
      requires Valid()
      modifies this
      ensures Valid()
      ensures rows == if |old(rows)| > 1 then WithoutRow(old(rows), id) else old(rows)
      ensures nextTick == old(nextTick)
      ensures Headers() == old(Headers()) && futures == old(futures) && SelectionKept()
    {
      if |rows| > 1 {
        WithoutRowValid(rows, id, nextTick);
        rows := WithoutRow(rows, id);
      }
    }

    /**
     * updateEntryRow: the field edit, then one blank row when the append rule
     * holds for the rows as they were before the edit.
     */
    method UpdateEntryRow(id: RowId, field: RowField, value: string)
      requires Valid()
      modifies this
      ensures Valid()
      ensures rows == EditRowThenAppend(old(rows), id, field, value, old(nextTick))
      ensures nextTick == if AppendsAfterEdit(old(rows), id, field, value) then old(nextTick) + 1 else old(nextTick)
      ensures Headers() == old(Headers()) && futures == old(futures) && SelectionKept()
    {
      var append := AppendsAfterEdit(rows, id, field, value);
      EditRowsFrame(rows, id, field, value);
      SameIdsValid(rows, EditRows(rows, id, field, value), nextTick);
      rows := EditRows(rows, id, field, value);
      if append {
        AddEntryRow();
      }
    }

    /**
     * updateCashPrice: the price edit, then one blank row when the append rule
     * holds for the rows as they were before the edit.
     */
    method UpdateCashPrice(id: RowId, monthIndex: nat, value: string)
      requires Valid() && monthIndex < COLUMNS
      modifies this
      ensures Valid()
      ensures rows == PriceThenAppend(old(rows), id, monthIndex, value, old(nextTick))
      ensures nextTick == if AppendsAfterPrice(old(rows), id, value) then old(nextTick) + 1 else old(nextTick)
      ensures Headers() == old(Headers()) && futures == old(futures) && SelectionKept()
    {
      var append := AppendsAfterPrice(rows, id, value);
      EditPricesFrame(rows, id, monthIndex, value);
      SameIdsValid(rows, EditPrices(rows, id, monthIndex, value), nextTick);
      rows := EditPrices(rows, id, monthIndex, value);
      if append {
        AddEntryRow();
      }
    }

    // -------------------------------------------------------------------------
    // Region seeding

    /**
     * loadRegionAssociations / loadAllRegionAssociations once the lookup has
     * answered `associations`: record them, and replace the rows by the seeded
     * rows unless the list is empty.
     */
    method SeedFromAssociations(associations: seq<RegionAssociation>, allRegions: bool)
      requires Valid()
      modifies this
      ensures Valid()
      ensures regionAssociations == associations
      ensures rows == if |associations| > 0 then SeedRows(associations, allRegions, old(nextTick)) else old(rows)
      ensures nextTick == if |associations| > 0 then old(nextTick) + 1 else old(nextTick)
      ensures Headers() == old(Headers()) && futures == old(futures)
      ensures date == old(date) && cropClass == old(cropClass) && region == old(region)
      ensures validationErrors == old(validationErrors) && showValidationErrors == old(showValidationErrors)
      ensures autoPopulating == old(autoPopulating)
    {
      regionAssociations := associations;
      if |associations| > 0 {
        SeedRowsFresh(associations, allRegions, nextTick);
        rows := SeedRows(associations, allRegions, nextTick);
        nextTick := nextTick + 1;
      }
    }

    /**
     * The effect on region and crop class: with both selected, the "all"
     * region loads every association of the class, any other region those of
     * that region; `associations` is what the lookup returned.
     */
    method RegionEffect(associations: seq<RegionAssociation>)
      requires Valid()
      modifies this
      ensures Valid()
      ensures !(Truthy(region) && Truthy(cropClass)) ==> rows == old(rows) && regionAssociations == old(regionAssociations)
      ensures Truthy(region) && Truthy(cropClass) ==>
        && regionAssociations == associations
        && rows == if |associations| > 0 then SeedRows(associations, region == "all", old(nextTick)) else old(rows)
      ensures nextTick == if Truthy(region) && Truthy(cropClass) && |associations| > 0 then old(nextTick) + 1 else old(nextTick)
      ensures Headers() == old(Headers()) && futures == old(futures)
      ensures date == old(date) && cropClass == old(cropClass) && region == old(region)
      ensures validationErrors == old(validationErrors) && showValidationErrors == old(showValidationErrors)
      ensures autoPopulating == old(autoPopulating)
    {
      if Truthy(region) && Truthy(cropClass) {
        if region == "all" {
          SeedFromAssociations(associations, true);
        } else {
          SeedFromAssociations(associations, false);
        }
      }
    }

    /** Selecting a region, followed by the effect it triggers. */
    method SelectRegion(value: string, associations: seq<RegionAssociation>)
      requires Valid()
      modifies this
      ensures Valid()
      ensures region == value
      ensures Truthy(value) && Truthy(cropClass) ==>
        && regionAssociations == associations
        && rows == if |associations| > 0 then SeedRows(associations, value == "all", old(nextTick)) else old(rows)
      ensures !(Truthy(value) && Truthy(cropClass)) ==> rows == old(rows) && regionAssociations == old(regionAssociations)
      ensures nextTick == if Truthy(value) && Truthy(cropClass) && |associations| > 0 then old(nextTick) + 1 else old(nextTick)
      ensures Headers() == old(Headers()) && futures == old(futures) && date == old(date) && cropClass == old(cropClass)
      ensures validationErrors == old(validationErrors) && showValidationErrors == old(showValidationErrors)
      ensures autoPopulating == old(autoPopulating)
    {
      region := value;
      RegionEffect(associations);
    }

    /**
     * Selecting a crop class: clearing it clears the region too; then the
     * region effect runs, since it also depends on the crop class.
     */
    method SelectCropClass(value: string, associations: seq<RegionAssociation>)
      requires Valid()
      modifies this
      ensures Valid()
      ensures cropClass == value
      ensures region == if Truthy(value) then old(region) else ""
      ensures Truthy(value) && Truthy(old(region)) ==>
        && regionAssociations == associations
        && rows == if |associations| > 0 then SeedRows(associations, old(region) == "all", old(nextTick)) else old(rows)
      ensures !(Truthy(value) && Truthy(old(region))) ==> rows == old(rows) && regionAssociations == old(regionAssociations)
      ensures nextTick == if Truthy(value) && Truthy(old(region)) && |associations| > 0 then old(nextTick) + 1 else old(nextTick)
      ensures Headers() == old(Headers()) && futures == old(futures) && date == old(date)
      ensures validationErrors == old(validationErrors) && showValidationErrors == old(showValidationErrors)
      ensures autoPopulating == old(autoPopulating)
    {
      cropClass := value;
      if !Truthy(value) {
        region := "";
      }
      RegionEffect(associations);
    }

    // -------------------------------------------------------------------------
    // Reset and save

    /** resetForm: today's date, no selection, empty headers and one blank row. */
    method ResetForm(today: string)
      requires Valid()
      modifies this
      ensures Valid() && IsReset(today)
      ensures nextTick == old(nextTick) && regionAssociations == old(regionAssociations)
      ensures validationErrors == old(validationErrors) && showValidationErrors == old(showValidationErrors)
      ensures autoPopulating == old(autoPopulating)
    {
      date, cropClass, region := today, "", "";
      months, years, futures := EMPTY_SCHEDULE.months, EMPTY_SCHEDULE.years, EMPTY_FUTURES;
      rows := [BlankRow(Initial)];
    }

    /**
     * handleSaveEntries. An unknown crop class changes nothing; a rejected
     * form keeps its contents and shows the errors; a failed insert changes
     * nothing; a successful insert clears the errors and resets the form.
     * `insertSucceeds` is the store's answer to insertEntries.
     */
    method HandleSaveEntries(parse: NumberParser, cropClasses: seq<CropClass>, insertSucceeds: bool, today: string)
      returns (outcome: SaveOutcome)
      requires Valid()
      modifies this
      ensures Valid()
      ensures FindCropClass(cropClasses, old(cropClass)).None? ==> outcome == UnknownCropClass
      ensures FindCropClass(cropClasses, old(cropClass)).Some? ==>
        var v := Validate(parse, old(AsForm(FindCropClass(cropClasses, cropClass).value.cropId)));
        && (!v.isValid ==> outcome == Rejected(v.errors))
        && (v.isValid && !insertSucceeds ==> outcome == InsertFailed(v.entries))
        && (v.isValid && insertSucceeds ==> outcome == Saved(v.entries))
      ensures !outcome.Saved? ==> Headers() == old(Headers()) && futures == old(futures) && RowsKept()
      ensures !outcome.Saved? ==> date == old(date) && cropClass == old(cropClass) && region == old(region)
      ensures outcome.Rejected? ==> validationErrors == outcome.errors && showValidationErrors
      ensures outcome.UnknownCropClass? || outcome.InsertFailed? ==>
        validationErrors == old(validationErrors) && showValidationErrors == old(showValidationErrors)
      ensures outcome.Saved? ==> IsReset(today) && nextTick == old(nextTick) && validationErrors == [] && !showValidationErrors
      ensures regionAssociations == old(regionAssociations) && autoPopulating == old(autoPopulating)
    {
      var selectedCropClass := FindCropClass(cropClasses, cropClass);
      if selectedCropClass.None? {
        return UnknownCropClass;
      }
      var validation := Validator.ValidateAndPrepareEntries(parse, AsForm(selectedCropClass.value.cropId));
      if !validation.isValid {
        validationErrors := validation.errors;
        showValidationErrors := true;
        return Rejected(validation.errors);
      }
      if !insertSucceeds {
        return InsertFailed(validation.entries);
      }
      validationErrors := [];
      showValidationErrors := false;
      ResetForm(today);
      outcome := Saved(validation.entries);
    }
  }
}
