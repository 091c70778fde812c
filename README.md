# Grain entry grid — a Dafny model

The model covers the part of the grain-pricing dashboard that turns a price sheet into database rows.

A user fills in one sheet:

- an entry date and a crop class;
- six month/year columns, each with a futures reading;
- any number of elevator/town rows, with one cash price per column.

The application then does five things with it:

- it validates the sheet;
- it maps the validation errors back onto the cells to highlight;
- it keeps the month/year headers in calendar order as the user edits them;
- it appends blank rows as the last row gets filled;
- on save, it produces one insert record per priced cell.

Two other screens are also modelled:

- the list of stored entries, with its pending and applied search, sort and filters;
- an older single-screen version of the same grid.

Modules, one per concern:

| module | file | what it holds |
|---|---|---|
| `Types` | `types.dfy` | The month labels, `indexOf` over them, the `parseFloat(...) \|\| null` reading of a number, row ids and rows, the insert record. |
| `Seqs` | `seqs.dfy` | `filter`, `find`, distinct keys and subsequences, as generic functions with their lemmas. |
| `Cells` | `cells.dfy` | The column-major order in which the extraction loops visit price cells. |
| `Validation` | `validation.dfy` | What `validateAndPrepareEntries` computes, as functions of the form, and its properties. |
| `Validator` | `validator.dfy` | The loops of `validateAndPrepareEntries`, written as methods and proved equal to `Validation.Validate`. |
| `FieldErrorMap` | `field_errors.dfy` | `getFieldErrors` (loops proved against predicates), and how its flags relate to the validator. |
| `Periods` | `periods.dfy` | The column sequencer. `updateSubsequentColumns`, the auto-populate effect and the legacy column-0 fill all share it. |
| `RowStore` | `rows.dfy` | Row edits, removal, seeding from region associations and the auto-append rule. Also the lost-update behaviour of the handlers as written. |
| `NewEntries` | `new_entries.dfy` | The new-entries tab as a class whose fields are its React state, one method per handler. |
| `EntryList` | `entry_list.dfy` | Sort toggling, filter edits, the case-insensitive search and delete-by-id of the entries list. |
| `ViewEntries` | `view_entries.dfy` | The view-entries tab as a class. |
| `LegacyRecords` | `legacy_records.dfy` | What the legacy page's save loop extracts, and its agreement with the validator. |
| `LegacyPage` | `legacy_page.dfy` | The legacy page as a class: list, grid and save. |

Each React handler is one atomic transition of its class.

Values the handlers read from the environment become parameters:

- the answers of the Supabase calls (inserted or not, deleted or not, the region associations returned);
- `parseFloat`;
- `toLowerCase`;
- today's date;
- the current year.

`Date.now()` for new row ids becomes a counter field, `nextTick`. The row id `Stamp(t)` stands for the id that call produced.

## Model

| member | source | states |
|---|---|---|
| `Types.IndexOf` | src/pages/grainEntries/utils.ts:19 | `MONTHS.indexOf`: -1 exactly when the label is not a month, otherwise the position of the label. |
| `Types.MonthNames` | src/pages/grainEntries/utils.ts:19 | The label list, defined once through `MonthName(i)`, is exactly `Jan` … `Dec` in calendar order. |
| `Types.NumberOrNull` | src/pages/grainEntries/utils/validationUtils.ts:105 | `parseFloat(s) \|\| null`: absent when the text does not parse or parses to 0, the parsed number otherwise. |
| `Types.BlankRow` | src/pages/grainEntries/components/NewEntriesTab.tsx:347-352 | The appended row has the given id, no elevator, no town and six empty prices. |
| `Validation.PresenceStageErrors` | src/pages/grainEntries/utils/validationUtils.ts:36-82 | Each of `date`, `cropClass`, `monthYear` and `rows` gets exactly one error iff its check fails. There is never a `cashPrices` error at this stage. The list is empty iff all four checks pass. |
| `Validation.ShortCircuit` | src/pages/grainEntries/utils/validationUtils.ts:85-91 | When the presence stage fails, the result is invalid, has no entries, carries exactly the presence errors and no `cashPrices` error. |
| `Validation.Sufficiency` | src/pages/grainEntries/utils/validationUtils.ts:141-152 | Valid iff there are no errors. Once presence passes: valid iff at least one record was extracted; otherwise the single error is `cashPrices`; the entries are the extracted records. |
| `Validation.ExtractProvenance` | src/pages/grainEntries/utils/validationUtils.ts:96-137 | Record k comes from the k-th eligible cell. That cell has a month, a non-zero year, an elevator and town, and a non-empty, non-zero price. The record copies date, class, crop, elevator, town, month and year, takes that column's futures reading, and has empty notes. |
| `Validation.ExtractCompleteAndOrdered` | src/pages/grainEntries/utils/validationUtils.ts:96-137 | Every eligible cell yields exactly one record. Records follow column-major cell order. |
| `Validation.SkippedCell` | src/pages/grainEntries/utils/validationUtils.ts:114-120 | A cell whose price is empty, unparseable or zero yields no record and raises no error of its own. |
| `Validation.EligibleCellsSpec` | src/pages/grainEntries/utils/validationUtils.ts:96-122 | The visited cells are exactly the eligible cells, in column-major order. |
| `Validation.CountPositive` | src/pages/grainEntries/utils/validationUtils.ts:164-170 | `errors.some(e => e.field === f)` holds iff the list has at least one error for `f`. |
| `Validator.ScanMonthYear` | src/pages/grainEntries/utils/validationUtils.ts:51-67 | The column scan reports true iff some column has a month and a positive year. |
| `Validator.ScanRows` | src/pages/grainEntries/utils/validationUtils.ts:70-82 | The row scan reports true iff some row has both an elevator and a town. |
| `Validator.ExtractEntries` | src/pages/grainEntries/utils/validationUtils.ts:96-137 | The nested extraction loops produce exactly `Extract`, the records of the eligible cells. |
| `Validator.ValidateAndPrepareEntries` | src/pages/grainEntries/utils/validationUtils.ts:23-153 | The whole validator, with its `errors` accumulator and loops, returns `Validate(parse, form)`. |
| `FieldErrorMap.MonthYearFlags` | src/pages/grainEntries/utils/validationUtils.ts:178-191 | Six flags. A flag is set iff its column has a month or a year but is not complete, or it is column 0 and no column is complete. |
| `FieldErrorMap.RowFlags` | src/pages/grainEntries/utils/validationUtils.ts:194-200 | One flag per row, set iff the row lacks an elevator or a town. |
| `FieldErrorMap.PriceFlags` | src/pages/grainEntries/utils/validationUtils.ts:203-219 | On the entry surface (addressable row, complete column), a cell is flagged iff its price is unusable. Reports whether any surface price is usable. |
| `FieldErrorMap.SurfaceFlags` | src/pages/grainEntries/utils/validationUtils.ts:220-230 | The fallback flags every surface cell and keeps every flag already set. |
| `FieldErrorMap.GetFieldErrors` | src/pages/grainEntries/utils/validationUtils.ts:155-239 | Group flags are set iff the list has an error of that field. Each highlight matrix matches its rule exactly and stays all-false unless its own error is present. |
| `FieldErrorMap.CashPriceFlagRule` | src/pages/grainEntries/utils/validationUtils.ts:203-230 | With a `cashPrices` error, a cell is flagged iff it is on the surface with an unusable price. With no usable price anywhere, the whole surface is flagged. |
| `FieldErrorMap.SurfacePriceYieldsRecord` | src/pages/grainEntries/utils/validationUtils.ts:114-122 | A usable price on the entry surface always gives the validator at least one record. |
| `FieldErrorMap.ValidatorCashPriceErrorHighlightsSurface` | src/pages/grainEntries/utils/validationUtils.ts:141-152 | After the validator's own `cashPrices` error, every cell of the entry surface is highlighted. |
| `FieldErrorMap.ValidatorPresenceErrorsHighlight` | src/pages/grainEntries/utils/validationUtils.ts:178-200 | After the validator's `monthYear` error, column 0 is highlighted. After its `rows` error, every row is highlighted. |
| `Periods.IndexOfMonth` | src/pages/grainEntries/components/NewEntriesTab.tsx:243 | `indexOf` of label `i` is `i`, because the twelve labels are distinct. |
| `Periods.WrapIsModulo` | src/pages/grainEntries/components/NewEntriesTab.tsx:256-257 | The month offset wraps as `% 12`, and the year increment is `Math.floor(/ 12)`. |
| `Periods.PropagatedAnchor` | src/pages/grainEntries/components/NewEntriesTab.tsx:250-262 | Columns before the anchor keep their months and years. The anchor column holds the chosen month and year. |
| `Periods.PropagatedSuccession` | src/pages/grainEntries/components/NewEntriesTab.tsx:254-260 | From the anchor on, each column is the calendar month after the previous one, and the year rises only when December is followed by January. |
| `Periods.PropagatedTwice` | src/pages/grainEntries/components/NewEntriesTab.tsx:240-266 | Propagating again from the same anchor and values changes nothing. |
| `Periods.PropagatedAgreeBelow` | src/pages/grainEntries/components/NewEntriesTab.tsx:254-260 | Propagation depends only on the columns before the anchor. |
| `Periods.NovemberExample` | src/pages/grainEntries/components/NewEntriesTab.tsx:254-260 | Nov 2024 in column 0 yields Nov, Dec 2024 and Jan, Feb, Mar, Apr 2025. |
| `Periods.FirstSetFrom` | src/pages/grainEntries/components/NewEntriesTab.tsx:213 | `findIndex`: returns the first column with a month and a non-zero year, or -1 when there is none. |
| `Periods.AutoPopulatedKeepsAnchor` | src/pages/grainEntries/components/NewEntriesTab.tsx:210-237 | The first set column and every column before it are left alone. With no set column, or an unknown month in it, nothing changes. |
| `Periods.AutoPopulatedFollowsAnchor` | src/pages/grainEntries/components/NewEntriesTab.tsx:224-230 | After the first set column, each column is its calendar successor. |
| `Periods.AutoPopulatedSameAnchor` | src/pages/grainEntries/components/NewEntriesTab.tsx:210-237 | The effect does not move the first set column. |
| `Periods.AutoPopulatedIdempotent` | src/pages/grainEntries/components/NewEntriesTab.tsx:210-237 | Running the effect on its own output yields the same headers. |
| `Periods.EffectWouldUndoManualChange` | src/pages/grainEntries/components/NewEntriesTab.tsx:262-265 | Without the flag, the effect would undo a manual change: after Jan–Jun 2024 and a change of column 3 to Sep, it would bring column 3 back to Apr. |
| `Periods.MonthAfter` | src/pages/grainEntries/components/NewEntriesTab.tsx:256-258 | Returns the label of month `(m+d) % 12` and the year increment `(m+d) / 12`. |
| `Periods.FillSubsequent` | src/pages/grainEntries/components/NewEntriesTab.tsx:250-262 | The copy-and-fill loop returns exactly `Propagated` of its inputs. |
| `RowStore.WithField` | src/pages/grainEntries/components/NewEntriesTab.tsx:309-313 | `{ ...row, [field]: value }`: the chosen field gets the value, and id, the other field and the prices are kept. |
| `RowStore.EditRowsFrame` | src/pages/grainEntries/components/NewEntriesTab.tsx:309-313 | The map edits every row with the id, leaves every other row as it was, and keeps order and length. |
| `RowStore.EditPricesFrame` | src/pages/grainEntries/components/NewEntriesTab.tsx:326-335 | The price map changes only cell `c` of the rows with the id. |
| `RowStore.Find` | src/pages/grainEntries/components/NewEntriesTab.tsx:316 | `rows.find`: present iff some row has the id, and then it is the first such row. |
| `RowStore.WithoutRowSpec` | src/pages/grainEntries/components/NewEntriesTab.tsx:354-358 | With distinct ids, the filter drops exactly the row with that id (or nothing when there is none), keeps the order of the others and keeps ids distinct. |
| `RowStore.SeedRowsSpec` | src/pages/grainEntries/components/NewEntriesTab.tsx:151-207 | Seeding yields one row per association plus one. Row i carries association i's elevator and town with empty prices, under the id `region-i` or `all-regions-i`. The last row is blank. Ids are distinct. |
| `RowStore.SeedRowsFresh` | src/pages/grainEntries/components/NewEntriesTab.tsx:164-169 | Seeded rows keep the row invariant with the next tick. |
| `RowStore.AppendBlankSpec` | src/pages/grainEntries/components/NewEntriesTab.tsx:347-352 | `addEntryRow` keeps every existing row, adds exactly one blank row with a fresh id, and keeps the invariant. |
| `RowStore.WithoutRowValid` | src/pages/grainEntries/components/NewEntriesTab.tsx:354-358 | Removing a row from more than one keeps the rows non-empty, shaped and distinctly keyed. |
| `RowStore.EditRowThenAppendSpec` | src/pages/grainEntries/components/NewEntriesTab.tsx:308-323 | The first rows are the edited rows. Exactly one blank row follows iff the town-completes-the-last-row rule holds for the rows before the edit. The invariant holds. |
| `RowStore.PriceThenAppendSpec` | src/pages/grainEntries/components/NewEntriesTab.tsx:325-345 | The first rows are the price-edited rows. Exactly one blank row follows iff a non-empty price was typed into the last, addressable row. The invariant holds. |
| `RowStore.StaleAppendDropsTown` | src/pages/grainEntries/components/NewEntriesTab.tsx:308-323 | As written, setting the town of the only row appends a blank row but loses the town. The corrected transition keeps it. |
| `RowStore.StaleAppendDropsPrice` | src/pages/grainEntries/components/NewEntriesTab.tsx:325-352 | As written, typing the first price into the only, addressable row appends a blank row but loses the price. The corrected transition keeps it. |
| `NewEntries.FindCropClass` | src/pages/grainEntries/components/NewEntriesTab.tsx:363-367 | Present iff some crop class has the selected id, and then it has that id. |
| `NewEntries.EntryGrid.constructor` | src/pages/grainEntries/components/NewEntriesTab.tsx:43-54 | The initial state: today's date, no class or region, empty headers, one blank row, no errors shown. |
| `NewEntries.EntryGrid.UpdateSubsequentColumns` | src/pages/grainEntries/components/NewEntriesTab.tsx:240-266 | Nothing changes unless month and year are set and the month is known. Otherwise the headers become the propagation from the changed column and the auto-populate flag is cleared. Rows, futures and selection are untouched. |
| `NewEntries.EntryGrid.AutoPopulate` | src/pages/grainEntries/components/NewEntriesTab.tsx:210-237 | While the flag is on, the headers become `AutoPopulated` of the headers before. While it is off, nothing changes. |
| `NewEntries.EntryGrid.ReenableAutoPopulate` | src/pages/grainEntries/components/NewEntriesTab.tsx:265 | The timer sets the flag again. Nothing else changes. |
| `NewEntries.EntryGrid.UpdateEntryMonth` | src/pages/grainEntries/components/NewEntriesTab.tsx:280-289 | With a year already in the column, a known month propagates from that column and clears the flag, and a non-empty unknown label changes nothing. Otherwise only `months[index]` changes. |
| `NewEntries.EntryGrid.UpdateEntryYear` | src/pages/grainEntries/components/NewEntriesTab.tsx:291-300 | With a known month already in the column, a non-zero year propagates from that column and clears the flag. With an unknown month it changes nothing. Otherwise only `years[index]` changes. |
| `NewEntries.EntryGrid.UpdateEntryFutures` | src/pages/grainEntries/components/NewEntriesTab.tsx:302-306 | Only `futures[index]` changes. |
| `NewEntries.EntryGrid.AddEntryRow` | src/pages/grainEntries/components/NewEntriesTab.tsx:347-352 | Rows become the old rows plus one blank row with a fresh id. |
| `NewEntries.EntryGrid.RemoveEntryRow` | src/pages/grainEntries/components/NewEntriesTab.tsx:354-358 | With more than one row, the row with that id is dropped. The last row is never removed. |
| `NewEntries.EntryGrid.UpdateEntryRow` | src/pages/grainEntries/components/NewEntriesTab.tsx:308-323 | Rows become `EditRowThenAppend` of the old rows. Nothing else changes. |
| `NewEntries.EntryGrid.UpdateCashPrice` | src/pages/grainEntries/components/NewEntriesTab.tsx:325-345 | Rows become `PriceThenAppend` of the old rows. Nothing else changes. |
| `NewEntries.EntryGrid.SeedFromAssociations` | src/pages/grainEntries/components/NewEntriesTab.tsx:151-207 | Records the associations. Replaces the rows by the seeded rows unless the list is empty. |
| `NewEntries.EntryGrid.RegionEffect` | src/pages/grainEntries/components/NewEntriesTab.tsx:141-149 | With region and class both set, the `all` region loads the associations of every region and any other region those of that region, and a non-empty answer uses one timestamp. Otherwise nothing happens. Errors, headers and selection are kept. |
| `NewEntries.EntryGrid.SelectRegion` | src/pages/grainEntries/components/NewEntriesTab.tsx:506 | Sets the region, then runs the region effect. Errors, headers, associations (when idle) and the timestamp counter (unless seeding) are kept. |
| `NewEntries.EntryGrid.SelectCropClass` | src/pages/grainEntries/components/NewEntriesTab.tsx:121-128 | Sets the class. An empty class also clears the region. Then the region effect runs, with the same frame as `SelectRegion`. |
| `NewEntries.EntryGrid.ResetForm` | src/pages/grainEntries/components/NewEntriesTab.tsx:269-278 | Today's date, no selection, empty headers and futures, a single blank row. |
| `NewEntries.EntryGrid.HandleSaveEntries` | src/pages/grainEntries/components/NewEntriesTab.tsx:360-410 | An unknown class changes nothing. An invalid form keeps its contents and shows exactly the validator's errors. A valid form hands exactly the validator's entries to the store. A failed insert changes nothing. A successful insert clears the errors and resets the form. |
| `EntryList.ToggleSort` | src/pages/grainEntries/components/ViewEntriesTab.tsx:66-71 | Sorts by the given field, descending iff it is the current field sorted ascending. |
| `EntryList.ToggleSortAlternates` | src/pages/grainEntries/components/ViewEntriesTab.tsx:66-71 | Clicking the same header again flips its direction. |
| `EntryList.ToggleSortFromDefault` | src/pages/grainEntries/components/ViewEntriesTab.tsx:27 | Clicking `date` from the default date-descending order gives date ascending. |
| `EntryList.FilterChange` | src/pages/grainEntries/components/ViewEntriesTab.tsx:73-78 | The key gets the value, or is cleared for an empty value. Every other key keeps its value. |
| `EntryList.FilterChangeOverwrites` | src/pages/grainEntries/components/ViewEntriesTab.tsx:73-78 | A second change of the same key overrides the first. |
| `EntryList.FilterChangeCommutes` | src/pages/grainEntries/components/ViewEntriesTab.tsx:73-78 | Changes of different keys commute. |
| `EntryList.ViewSearchSpec` | src/pages/grainEntries/components/ViewEntriesTab.tsx:90-102 | An empty term shows every entry. Otherwise an entry is shown iff the lower-cased term is a substring of its class, class crop, elevator, town, month, year or notes. Order is kept. |
| `EntryList.LegacySearchSpec` | src/pages/grainEntries/GrainEntriesPage.tsx:253-264 | The same for the legacy page, over crop, elevator, town, month, year and notes. |
| `EntryList.SearchByYearExample` | src/pages/grainEntries/components/ViewEntriesTab.tsx:98 | Searching `2025` finds an entry of year 2025 through `year.toString()`. |
| `EntryList.RemoveByIdSpec` | src/pages/grainEntries/components/ViewEntriesTab.tsx:80-88 | Exactly the entries with that id disappear. The others keep their order, and the length drops by the number removed. |
| `ViewEntries.ViewEntriesTab.constructor` | src/pages/grainEntries/components/ViewEntriesTab.tsx:19-33 | Loaded entries, no filters, date-descending sort, empty search, both pending and applied. |
| `ViewEntries.ViewEntriesTab.HandleSearch` | src/pages/grainEntries/components/ViewEntriesTab.tsx:60-64 | The pending filters, sort and term become the applied ones. Nothing else changes. |
| `ViewEntries.ViewEntriesTab.HandleSort` | src/pages/grainEntries/components/ViewEntriesTab.tsx:66-71 | Only the pending sort changes, to `ToggleSort`. |
| `ViewEntries.ViewEntriesTab.HandleFilterChange` | src/pages/grainEntries/components/ViewEntriesTab.tsx:73-78 | Only the pending filters change, to `FilterChange`. |
| `ViewEntries.ViewEntriesTab.SetSearchTerm` | src/pages/grainEntries/components/ViewEntriesTab.tsx:124 | Only the pending term changes. The applied search is untouched until `HandleSearch`. |
| `ViewEntries.ViewEntriesTab.HandleDeleteEntry` | src/pages/grainEntries/components/ViewEntriesTab.tsx:80-88 | A successful soft delete removes the entries with that id. A failed one changes nothing. |
| `LegacyRecords.LegacyExtractMembers` | src/pages/grainEntries/GrainEntriesPage.tsx:204-229 | A record is extracted iff it is the record of some cell with a month, a non-zero year, an addressable row and a usable price. |
| `LegacyRecords.StripAll` | src/pages/grainEntries/GrainEntriesPage.tsx:217-227 | Dropping the class id keeps length and every other field of each record. |
| `LegacyRecords.LegacyAgreesWithValidator` | src/pages/grainEntries/GrainEntriesPage.tsx:204-229 | The legacy save loop builds the validator's records minus the class id, when the empty string does not parse. |
| `LegacyPage.ExtractEntries` | src/pages/grainEntries/GrainEntriesPage.tsx:204-229 | The nested loops of the legacy save produce exactly `LegacyExtract`. |
| `LegacyPage.FillFromFirst` | src/pages/grainEntries/GrainEntriesPage.tsx:128-137 | The push loop yields the propagation from column 0 in the current year. |
| `LegacyPage.GrainEntriesPage.constructor` | src/pages/grainEntries/GrainEntriesPage.tsx:24-49 | Loaded entries, default list state and a cleared form. |
| `LegacyPage.GrainEntriesPage.HandleSearch` | src/pages/grainEntries/GrainEntriesPage.tsx:81-85 | The pending list state becomes the applied state. The form is untouched. |
| `LegacyPage.GrainEntriesPage.HandleSort` | src/pages/grainEntries/GrainEntriesPage.tsx:87-92 | Only the pending sort changes, to `ToggleSort`. |
| `LegacyPage.GrainEntriesPage.HandleFilterChange` | src/pages/grainEntries/GrainEntriesPage.tsx:94-99 | Only the pending filters change, to `FilterChange`. |
| `LegacyPage.GrainEntriesPage.HandleDeleteEntry` | src/pages/grainEntries/GrainEntriesPage.tsx:108-116 | A successful delete removes the entries with that id. |
| `LegacyPage.GrainEntriesPage.UpdateEntryMonth` | src/pages/grainEntries/GrainEntriesPage.tsx:119-143 | A known month in column 0 rewrites all six columns from it, starting at the current year. Otherwise only `months[index]` changes. |
| `LegacyPage.GrainEntriesPage.UpdateEntryYear` | src/pages/grainEntries/GrainEntriesPage.tsx:145-149 | Only `years[index]` changes. |
| `LegacyPage.GrainEntriesPage.UpdateEntryFutures` | src/pages/grainEntries/GrainEntriesPage.tsx:151-155 | Only `futures[index]` changes. |
| `LegacyPage.GrainEntriesPage.AddEntryRow` | src/pages/grainEntries/GrainEntriesPage.tsx:187-192 | One blank row with a fresh id is appended. |
| `LegacyPage.GrainEntriesPage.RemoveEntryRow` | src/pages/grainEntries/GrainEntriesPage.tsx:194-198 | With more than one row, the row with that id is dropped. |
| `LegacyPage.GrainEntriesPage.UpdateEntryRow` | src/pages/grainEntries/GrainEntriesPage.tsx:157-172 | Rows become `EditRowThenAppend` of the old rows. |
| `LegacyPage.GrainEntriesPage.UpdateCashPrice` | src/pages/grainEntries/GrainEntriesPage.tsx:174-185 | Only the one price cell changes. No row is appended. |
| `LegacyPage.GrainEntriesPage.HandleSaveEntries` | src/pages/grainEntries/GrainEntriesPage.tsx:200-251 | No records: nothing is inserted and nothing changes. Otherwise exactly `LegacyExtract` of the form is handed to the store. A failure changes nothing. A success clears the form. |

## Left out

- Supabase reads and writes (`listEntries`, `insertEntries`, `softDeleteEntry`, `listRegionAssociations`, the master-data lookups) are I/O. Their answers are parameters of the handlers. `loadData`, `loadAllRegions`, `loadFilteredRegions` and the reload after a save or delete are not modelled, so the list keeps the entries it holds.
- The asynchronous ordering of those calls is not modelled. Each handler is one atomic step, so a late answer overwriting a newer selection is not captured.
- Toasts, `console.error`, loading flags and all rendering and formatting (`formatPrice`, `calculateBasis`, the table markup) are presentation only.
- `filteredRegions` and the region dropdown contents depend only on lookups.
- `isAutoPopulating`'s timer is the separate step `NewEntries.EntryGrid.ReenableAutoPopulate`. `NewEntries.EntryGrid.AutoPopulate` is the effect run after a header change. Which interleavings of those steps React produces is not modelled: the 100 ms delay, and the fact that re-enabling the flag alone does not re-run the effect.
- The effect stores fresh arrays (NewEntriesTab.tsx:233-234), and React compares its dependencies by identity, so while the flag is on it runs again after each of its own runs. Each run is one `AutoPopulate` step. `Periods.AutoPopulatedIdempotent` shows the header contents stop changing after the first. The re-render loop itself is not modelled.
- `realtimeValidation` and the `fieldErrors` memo only call the modelled `validateAndPrepareEntries` and `getFieldErrors`.
- The apply-time server query (the applied sort and filters sent to `listEntries`) is store work. The model stops at the applied state.
- `Date.now()` is a counter (`nextTick`) that yields a fresh id per call. The real clock can return the same millisecond twice, and the model does not capture that id collision.
- `parseFloat`, `toLowerCase`, today's date and `getFullYear` are parameters. No number parsing, Unicode case mapping or calendar is modelled.
- `NewEntries.EntryGrid.UpdateEntryRow`: only the `elevator_id` and `town_id` fields are edited. Writing `id` or the `cash_prices` array through this untyped path is not used by the page.
- Years are integers on every path: the year inputs pass `parseInt(...) || 0`, and every computed year is a sum of integers. Only their size is left unbounded; JavaScript's safe-integer limit is not modelled.
- The setters that write one field and trigger no effect (`setEntryDate`, the legacy `setEntryCrop`, the legacy list's `setSearchTerm`) are plain field writes and have no method. The view tab's `SetSearchTerm` is modelled.
- The validator tests a column with `year` (non-zero) during extraction but with `year > 0` during presence and in `getFieldErrors`. The model keeps both tests as written; `Validation.EligibleCell` and `Validation.CompleteColumn` are the two.

## Findings

| source | as written | input that shows it | evidently intended | confidence | as-written member | corrected member |
|---|---|---|---|---|---|---|
| src/pages/grainEntries/components/NewEntriesTab.tsx:308-323, src/pages/grainEntries/GrainEntriesPage.tsx:157-172 | `updateEntryRow` queues the edit as an updater. `addEntryRow` then sets the rows to `[...entryRows, blank]` from the rows captured before the edit, and React applies that value after the updater, so the edit is lost whenever a row is appended. | One row with elevator `e1` and no town; choose town `t1`. Result: two rows, and the first still has no town. | The edit is applied, then the blank row is appended. | not executed | `RowStore.StaleAppendDropsTown` (on `RowStore.StaleEditRowThenAppend`) | `RowStore.EditRowThenAppendSpec` (on `RowStore.EditRowThenAppend`) |
| src/pages/grainEntries/components/NewEntriesTab.tsx:325-352 | `updateCashPrice` has the same updater-then-stale-append order, so the typed price is lost whenever a row is appended. | One row with elevator `e1` and town `t1`; type price `5` in column 0. Result: two rows, and the cell is still empty. | The price is stored, then the blank row is appended. | not executed | `RowStore.StaleAppendDropsPrice` (on `RowStore.StalePriceThenAppend`) | `RowStore.PriceThenAppendSpec` (on `RowStore.PriceThenAppend`) |
