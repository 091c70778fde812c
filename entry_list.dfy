/**
 * The list logic shared by the entries page and the view tab: the sort
 * toggle, the pending filter map, the client-side search over the loaded
 * entries and the local removal after a soft delete.
 */
module EntryList {
  import opened Types
  import opened Seqs

  datatype Direction = Asc | Desc

  /** SortConfig: the column sorted on and the direction. */
  datatype SortConfig = SortConfig(field: string, direction: Direction)

  /** Both lists open sorted by date, newest first. */
  const DEFAULT_SORT: SortConfig := SortConfig("date", Desc)

  /** handleSort: descending only when re-sorting the field currently ascending, ascending otherwise. */
  function ToggleSort(prev: SortConfig, field: string): (r: SortConfig)
    ensures r.field == field
    ensures r.direction == Desc <==> prev.field == field && prev.direction == Asc
  {
    SortConfig(field, if prev.field == field && prev.direction == Asc then Desc else Asc)
  }

  /** Clicking the same header again flips the direction. */
  lemma ToggleSortAlternates(prev: SortConfig, field: string)
    ensures ToggleSort(ToggleSort(prev, field), field).direction != ToggleSort(prev, field).direction
  {
  }

  /** The first click on the date header of a fresh list sorts it ascending. */
  lemma ToggleSortFromDefault()
    ensures ToggleSort(DEFAULT_SORT, "date") == SortConfig("date", Asc)
  {
  }

  /** The filter keys of either list (GrainEntryFilters in its two versions). */
  datatype FilterKey = ClassId | CropId | ElevatorId | TownId | RegionId | Month | Year | DateFrom | DateTo

  /** A filter object: a key absent or mapped to None is undefined. */
  type Filters = map<FilterKey, Option<string>>

  /** The value a query builder sees for `key`. */
  function FilterValue(filters: Filters, key: FilterKey): Option<string> {
    if key in filters then filters[key] else None
  }

  /** handleFilterChange: `{ ...prev, [key]: value || undefined }`. */
  function FilterChange(prev: Filters, key: FilterKey, value: string): (r: Filters)
    ensures FilterValue(r, key) == (if Truthy(value) then Some(value) else None)
    ensures forall k | k != key :: (k in r <==> k in prev) && FilterValue(r, k) == FilterValue(prev, k)
  {
    prev[key := if Truthy(value) then Some(value) else None]
  }

  /** Setting a key twice keeps the second value; setting two different keys commutes. */
  lemma FilterChangeOverwrites(prev: Filters, key: FilterKey, v1: string, v2: string)
    ensures FilterChange(FilterChange(prev, key, v1), key, v2) == FilterChange(prev, key, v2)
  {
  }

  lemma FilterChangeCommutes(prev: Filters, k1: FilterKey, v1: string, k2: FilterKey, v2: string)
    requires k1 != k2
    ensures FilterChange(FilterChange(prev, k1, v1), k2, v2) == FilterChange(FilterChange(prev, k2, v2), k1, v1)
  {
  }

  // ---------------------------------------------------------------------------
  // Search

  /**
   * A loaded entry, as far as the lists look at it: the names joined from the
   * reference tables are optional (the join may be missing).
   */
  datatype ListedEntry = ListedEntry(
    id: string,
    cropName: Option<string>,
    className: Option<string>,
    classCropName: Option<string>,
    elevatorName: Option<string>,
    townName: Option<string>,
    month: string,
    year: int,
    notes: string)

  /** `s.includes(t)`: t occurs in s at some position. */
  predicate Contains(s: string, t: string) {
    exists i | 0 <= i <= |s| :: t <= s[i..]
  }

  /** `name?.toLowerCase().includes(needle)`: false when the join is missing. */
  predicate NameContains(lower: string -> string, name: Option<string>, needle: string) {
    name.Some? && Contains(lower(name.value), needle)
  }

  function Digit(d: nat): char
    requires d < 10
  {
    ('0' as int + d) as char
  }

  function Digits(n: nat): string
    decreases n
  {
    if n < 10 then [Digit(n)] else Digits(n / 10) + [Digit(n % 10)]
  }

  /** `year.toString()` for an integer year. */
  function YearString(y: int): string {
    if y < 0 then "-" + Digits(-y) else Digits(y)
  }

  /** The view tab's search fields: class, the class's crop, elevator, town, month, year, notes. */
  predicate ViewMatches(lower: string -> string, e: ListedEntry, needle: string) {
    || NameContains(lower, e.className, needle)
    || NameContains(lower, e.classCropName, needle)
    || NameContains(lower, e.elevatorName, needle)
    || NameContains(lower, e.townName, needle)
    || Contains(lower(e.month), needle)
    || Contains(YearString(e.year), needle)
    || Contains(lower(e.notes), needle)
  }

  /** The entries page's search fields: crop, elevator, town, month, year, notes. */
  predicate LegacyMatches(lower: string -> string, e: ListedEntry, needle: string) {
    || NameContains(lower, e.cropName, needle)
    || NameContains(lower, e.elevatorName, needle)
    || NameContains(lower, e.townName, needle)
    || Contains(lower(e.month), needle)
    || Contains(YearString(e.year), needle)
    || Contains(lower(e.notes), needle)
  }

  /** filteredEntries of the view tab; `lower` is toLowerCase. */
  function ViewSearch(entries: seq<ListedEntry>, term: string, lower: string -> string): seq<ListedEntry> {
    if !Truthy(term) then entries
    else Filter(entries, (e: ListedEntry) => ViewMatches(lower, e, lower(term)))
  }

  /** filteredEntries of the entries page. */
  function LegacySearch(entries: seq<ListedEntry>, term: string, lower: string -> string): seq<ListedEntry> {
    if !Truthy(term) then entries
    else Filter(entries, (e: ListedEntry) => LegacyMatches(lower, e, lower(term)))
  }

  /**
   * An empty term keeps every entry; otherwise an entry is kept iff one of
   * the searched fields contains the lower-cased term; the order is kept.
   */
  lemma ViewSearchSpec(entries: seq<ListedEntry>, term: string, lower: string -> string)
    ensures !Truthy(term) ==> ViewSearch(entries, term, lower) == entries
    ensures Truthy(term) ==> forall e :: e in ViewSearch(entries, term, lower) <==> e in entries && ViewMatches(lower, e, lower(term))
    ensures Subsequence(ViewSearch(entries, term, lower), entries)
  {
    if Truthy(term) {
      FilterIsSubsequence(entries, (e: ListedEntry) => ViewMatches(lower, e, lower(term)));
    } else {
      SubsequenceRefl(entries);
    }
  }

  lemma LegacySearchSpec(entries: seq<ListedEntry>, term: string, lower: string -> string)
    ensures !Truthy(term) ==> LegacySearch(entries, term, lower) == entries
    ensures Truthy(term) ==> forall e :: e in LegacySearch(entries, term, lower) <==> e in entries && LegacyMatches(lower, e, lower(term))
    ensures Subsequence(LegacySearch(entries, term, lower), entries)
  {
    if Truthy(term) {
      FilterIsSubsequence(entries, (e: ListedEntry) => LegacyMatches(lower, e, lower(term)));
    } else {
      SubsequenceRefl(entries);
    }
  }

  /** Searching "2025" finds an entry of year 2025 whose names and notes say nothing about it. */
  lemma SearchByYearExample(lower: string -> string)
    requires lower("2025") == "2025"
    ensures var e := ListedEntry("e1", None, None, None, None, None, "", 2025, "");
      ViewSearch([e], "2025", lower) == [e] && LegacySearch([e], "2025", lower) == [e]
  {
    var e := ListedEntry("e1", None, None, None, None, None, "", 2025, "");
    assert Digits(2) == "2";
    assert Digits(20) == Digits(2) + "0";
    assert Digits(202) == Digits(20) + "2";
    assert Digits(2025) == Digits(202) + "5";
    assert YearString(2025)[0..] == "2025";
    assert Contains(YearString(e.year), "2025");
    assert ViewMatches(lower, e, lower("2025")) && LegacyMatches(lower, e, lower("2025"));
    assert [e][1..] == [];
  }

  // ---------------------------------------------------------------------------
  // Local removal

  /** `entries.filter(e => e.id !== id)`. */
  function RemoveById(entries: seq<ListedEntry>, id: string): seq<ListedEntry> {
    Filter(entries, (e: ListedEntry) => e.id != id)
  }

  /** The entries with that id; the ones a removal drops. */
  function WithId(entries: seq<ListedEntry>, id: string): seq<ListedEntry> {
    Filter(entries, (e: ListedEntry) => e.id == id)
  }

  /**
   * Removal loses exactly the entries with that id: every other entry stays,
   * in the same order, and the length drops by the number of entries with that id.
   */
  lemma RemoveByIdSpec(entries: seq<ListedEntry>, id: string)
    ensures forall e :: e in RemoveById(entries, id) <==> e in entries && e.id != id
    ensures Subsequence(RemoveById(entries, id), entries)
    ensures |RemoveById(entries, id)| == |entries| - |WithId(entries, id)|
  {
    FilterIsSubsequence(entries, (e: ListedEntry) => e.id != id);
    FilterComplement(entries, (e: ListedEntry) => e.id != id, (e: ListedEntry) => e.id == id);
  }
}
