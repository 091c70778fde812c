/**
 * The view-entries tab: pending and applied list settings, the loaded
 * entries and the handlers that move between them.
 */
module ViewEntries {
  import opened Types
  import opened EntryList

  class ViewEntriesTab {
    var entries: seq<ListedEntry>
    var filters: Filters
    var sort: SortConfig
    var searchTerm: string
    var appliedFilters: Filters
    var appliedSort: SortConfig
    var appliedSearchTerm: string

    /** The tab as first rendered, holding the entries its first load returned. */
    constructor(loaded: seq<ListedEntry>)
      ensures entries == loaded
      ensures filters == map[] && appliedFilters == map[]
      ensures sort == DEFAULT_SORT && appliedSort == DEFAULT_SORT
      ensures searchTerm == "" && appliedSearchTerm == ""
    {
      entries := loaded;
      filters, appliedFilters := map[], map[];
      sort, appliedSort := DEFAULT_SORT, DEFAULT_SORT;
      searchTerm, appliedSearchTerm := "", "";
    }

    twostate predicate PendingKept()
      reads this
    {
      filters == old(filters) && sort == old(sort) && searchTerm == old(searchTerm)
    }

    twostate predicate AppliedKept()
      reads this
    {
      appliedFilters == old(appliedFilters) && appliedSort == old(appliedSort) && appliedSearchTerm == old(appliedSearchTerm)
    }

    /** handleSearch: the pending filters, sort and term become the applied ones, unchanged. */
    method HandleSearch()
      modifies this
      ensures appliedFilters == old(filters) && appliedSort == old(sort) && appliedSearchTerm == old(searchTerm)
      ensures PendingKept() && entries == old(entries)
    {
      appliedFilters := filters;
      appliedSort := sort;
      appliedSearchTerm := searchTerm;
    }

    /** handleSort: only the pending sort changes. */
    method HandleSort(field: string)
      modifies this
      ensures sort == ToggleSort(old(sort), field)
      ensures filters == old(filters) && searchTerm == old(searchTerm) && AppliedKept() && entries == old(entries)
    {
      sort := ToggleSort(sort, field);
    }

    /** handleFilterChange: only the pending filter for `key` changes. */
    method HandleFilterChange(key: FilterKey, value: string)
      modifies this
      ensures filters == FilterChange(old(filters), key, value)
      ensures sort == old(sort) && searchTerm == old(searchTerm) && AppliedKept() && entries == old(entries)
    {
      filters := FilterChange(filters, key, value);
    }

    /** The search box's onChange. */
    method SetSearchTerm(value: string)
      modifies this
      ensures searchTerm == value
      ensures filters == old(filters) && sort == old(sort) && AppliedKept() && entries == old(entries)
    {
      searchTerm := value;
    }

    /**
     * handleDeleteEntry: after the store has soft-deleted the entry
     * (`deleted`), the local list loses the entries with that id; after a
     * failure nothing changes.
     */
    method HandleDeleteEntry(id: string, deleted: bool)
      modifies this
      ensures entries == if deleted then RemoveById(old(entries), id) else old(entries)
      ensures PendingKept() && AppliedKept()
    {
      if deleted {
        entries := RemoveById(entries, id);
      }
    }

    /** filteredEntries: the loaded entries searched with the applied term. */
    function FilteredEntries(lower: string -> string): seq<ListedEntry>
      reads this
    {
      ViewSearch(entries, appliedSearchTerm, lower)
    }
  }
}
