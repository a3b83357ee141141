/**
 * The list the board shows (`filteredMemos`): the memos that pass the filter
 * button, the active tag, the date range and the search box, newest first.
 */
module Query {
  import opened Wrappers
  import opened Text
  import opened Seqs
  import opened Sorting
  import opened Memos

  /** The filter button: `pinned` keeps pinned memos, a category button keeps that category. */
  predicate PassesFilter(m: Memo, filter: FilterValue) {
    match filter
    case ShowAll => true
    case ShowPinned => m.pinned
    case ShowTasks => m.category == Task
    case ShowIdeas => m.category == Idea
    case ShowJournal => m.category == Journal
    case ShowNotes => m.category == Note
  }

  /** The active tag, when one is set; the empty string is falsy and sets none. */
  predicate HasActiveTag(m: Memo, activeTag: Option<string>) {
    activeTag.None? || activeTag.value == [] || activeTag.value in m.tags
  }

  /** date-fns `isWithinInterval`: both ends inclusive. */
  predicate IsWithinInterval(t: int, start: int, end: int) {
    start <= t <= end
  }

  /** The date check, branch by branch as the page writes it. */
  predicate WithinDateRange(t: int, range: DateRange) {
    if range.from.None? && range.to.None? then true
    else if range.from.Some? && range.to.Some? then IsWithinInterval(t, range.from.value, range.to.value)
    else if range.from.Some? then t >= range.from.value
    else t <= range.to.value
  }

  /** The search box text as the filter uses it: trimmed, then lower-cased. */
  function SearchQuery(search: string): (query: string)
    ensures query == [] <==> AllWhitespace(search)
    ensures forall k :: 0 <= k < |query| ==> !IsUpper(query[k])
  {
    ToLower(Trim(search))
  }

  /** An empty query matches every memo; otherwise the content or one tag must contain it. */
  predicate MatchesQuery(m: Memo, query: string) {
    || query == []
    || Contains(ToLower(m.content), query)
    || exists k :: 0 <= k < |m.tags| && Contains(ToLower(m.tags[k]), query)
  }

  /** All four checks of the filter callback. */
  predicate Admits(m: Memo, filter: FilterValue, activeTag: Option<string>, query: string, range: DateRange) {
    && PassesFilter(m, filter)
    && HasActiveTag(m, activeTag)
    && WithinDateRange(m.createdAt, range)
    && MatchesQuery(m, query)
  }

  function Admitted(filter: FilterValue, activeTag: Option<string>, query: string, range: DateRange): Memo -> bool {
    m => Admits(m, filter, activeTag, query, range)
  }

  function CreatedAt(m: Memo): int {
    m.createdAt
  }

  /**
   * `filteredMemos`: every admitted memo as often as the collection holds it, nothing
   * else, newest first.
   */
  function FilteredMemos(memos: seq<Memo>, filter: FilterValue, activeTag: Option<string>,
                         search: string, range: DateRange): (r: seq<Memo>)
    ensures forall m :: multiset(r)[m] ==
                        (if Admits(m, filter, activeTag, SearchQuery(search), range) then multiset(memos)[m] else 0)
    ensures SortedDesc(r, CreatedAt)
  {
    var admitted := Admitted(filter, activeTag, SearchQuery(search), range);
    FilterMultiset(memos, admitted);
    SortDesc(Filter(memos, admitted), CreatedAt)
  }

  /** A memo is listed exactly when it is in the collection and passes all four checks. */
  lemma FilteredMemosMembership(memos: seq<Memo>, filter: FilterValue, activeTag: Option<string>,
                                search: string, range: DateRange, m: Memo)
    ensures m in FilteredMemos(memos, filter, activeTag, search, range) <==>
      m in memos && Admits(m, filter, activeTag, SearchQuery(search), range)
  {
    var r := FilteredMemos(memos, filter, activeTag, search, range);
    assert m in r <==> m in multiset(r);
    assert m in memos <==> m in multiset(memos);
  }

  /** Memos created at the same instant are listed in collection order. */
  lemma FilteredMemosStable(memos: seq<Memo>, filter: FilterValue, activeTag: Option<string>,
                            search: string, range: DateRange, t: int)
    ensures WithKey(FilteredMemos(memos, filter, activeTag, search, range), CreatedAt, t) ==
      WithKey(Filter(memos, Admitted(filter, activeTag, SearchQuery(search), range)), CreatedAt, t)
  {
    SortDescStable(Filter(memos, Admitted(filter, activeTag, SearchQuery(search), range)), CreatedAt, t);
  }

  /** The date check is the conjunction of the bounds that are set, each inclusive. */
  lemma WithinDateRangeAsBounds(t: int, range: DateRange)
    ensures WithinDateRange(t, range) <==>
      (range.from.None? || range.from.value <= t) && (range.to.None? || t <= range.to.value)
  {
  }

  /** A memo matches a non-empty query exactly when the query occurs in its lower-cased content or in one lower-cased tag. */
  lemma {:induction false} MatchesQueryMeaning(m: Memo, query: string)
    ensures MatchesQuery(m, query) <==>
      || query == []
      || OccursIn(query, ToLower(m.content))
      || exists k :: 0 <= k < |m.tags| && OccursIn(query, ToLower(m.tags[k]))
  {
    ContainsIff(ToLower(m.content), query);
    forall k | 0 <= k < |m.tags| {
      ContainsIff(ToLower(m.tags[k]), query);
    }
  }

  /** A search box holding only whitespace lists every memo the other three checks admit. */
  lemma BlankSearchMatchesAll(memos: seq<Memo>, filter: FilterValue, activeTag: Option<string>,
                              search: string, range: DateRange)
    requires AllWhitespace(search)
    ensures forall m :: multiset(FilteredMemos(memos, filter, activeTag, search, range))[m] ==
                        (if PassesFilter(m, filter) && HasActiveTag(m, activeTag) && WithinDateRange(m.createdAt, range)
                         then multiset(memos)[m] else 0)
  {
  }

  /** With no filter, tag, range or search the board lists the whole collection, newest first. */
  lemma UnfilteredIsPermutation(memos: seq<Memo>)
    ensures multiset(FilteredMemos(memos, ShowAll, None, "", NoDateRange)) == multiset(memos)
  {
  }

  /** Choosing an active tag only ever removes memos from the list. */
  lemma ActiveTagNarrows(memos: seq<Memo>, filter: FilterValue, tag: string, search: string, range: DateRange)
    ensures multiset(FilteredMemos(memos, filter, Some(tag), search, range)) <=
      multiset(FilteredMemos(memos, filter, None, search, range))
  {
  }
}
