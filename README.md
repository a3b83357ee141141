# Memo board: a verified model of its view state

The memo board is a single-page React client. It keeps a list of memos. Each memo has an id, Markdown content, a list of tags, a category (note, idea, task, journal), a pin flag and a creation time.

The page lets the user work on that list in these ways:
- write a memo in a composer, with a comma-separated tag field, and save it at the top;
- fill the composer from a template;
- edit a memo inline;
- reset to four demo memos.

The page also derives three things from the list:
- **Visible list.** The memos that pass a filter button, the active tag, a date range and a search box, newest first.
- **Tag panel.** Every tag with its number of uses, most used first. A click on a tag makes it the active tag, or clears it.
- **Counters.** How many memos there are, how many are pinned, and how many are tasks.

This project models that state and those operations in Dafny and proves what they guarantee.

Modules, in dependency order:
- `Wrappers` — `Option`.
- `Seqs` — `filter` on sequences.
- `Text` — the string operations the page applies to user input: ECMAScript `trim`, `toLowerCase`, `includes`, `split` and `join`.
- `Tags` — the tag normaliser `split(",").map(trim).filter(Boolean)` and its counterpart `join(", ")`.
- `Sorting` — `Array.prototype.sort` with a descending numeric comparator. This sort is stable.
- `Memos` — the memo record, the filter values, the date range and the demo fixture.
- `Query` — `filteredMemos`.
- `TagStats` — `tagUsage` and `stats`.
- `Board` — class `MemoBoard`. It holds the page's state fields and has one method per handler.

Conventions:
- A creation time is an integer number of milliseconds since the epoch.
- A picked date range is given as its already-resolved bounds: the start of the first day and the end of the last day.
- The new memo's id and the current time are parameters of the handlers that use them.
- Where the page tests a string for truthiness, the model follows JavaScript: the empty string counts as absent. This applies to `!editingMemoId` and `activeTag && …`.

## Model

| member | source | states |
|---|---|---|
| Memos.DemoMemosIdsUnique | app/page.tsx:72-110 | The demo fixture `demoMemos` holds four memos with distinct ids. |
| Text.Trim | app/page.tsx:727 | The result has no whitespace at either end. It is empty exactly when the input is all whitespace (the ECMAScript WhiteSpace and LineTerminator set). |
| Text.TrimIsSlice | app/page.tsx:765 | What `trim` returns is the slice of the input between a run of leading whitespace and a run of trailing whitespace. |
| Text.TrimKeepsOnlyCharactersOf | app/page.tsx:768 | Trimming adds no character, so a trimmed tag piece cannot contain a comma. |
| Text.TrimOfTrimmed | app/page.tsx:807 | Trimming a string that is already trimmed leaves it unchanged. |
| Text.ToLower | app/page.tsx:727 | The same length as the input and no capital letter in the result. Each capital A to Z becomes its lower-case letter (code + 32), and every other character is kept in place. |
| Text.Contains | app/page.tsx:752-754 | `hay.includes(needle)` as a scan over the offsets of `hay`. The empty needle is always found, and a found needle is no longer than `hay`. |
| Text.ContainsIff | app/page.tsx:752 | `hay.includes(needle)` holds exactly when `needle` occurs in `hay` at some offset. Both directions are proved. |
| Text.Split | app/page.tsx:767 | `split` on one separator character. There is always at least one piece, and no piece contains the separator. |
| Text.Join | app/page.tsx:788 | `join`: the pieces with the separator between each two. No pieces join to the empty string. |
| Text.JoinSplit | app/page.tsx:767 | Joining the pieces of a split with the same separator gives back the original string. |
| Text.SplitJoin | app/page.tsx:767 | Splitting the join of separator-free pieces gives back those pieces. |
| Text.SplitCons | app/page.tsx:767 | Splitting a string that starts with a separator starts a new empty piece. Any other first character joins the first piece of the rest. |
| Text.SplitAtSeparator | app/page.tsx:767 | Splitting at a separator is the same as splitting each side on its own and concatenating the results. |
| Tags.TrimEach | app/page.tsx:768 | `.map((tag) => tag.trim())`: the same number of pieces, each one trimmed in place. |
| Tags.NormalizeTags | app/page.tsx:766-769 | Every tag it produces is non-empty, trimmed and free of commas. |
| Tags.JoinTags | app/page.tsx:796 | `tags.join(", ")`, the text the editor shows for a memo's tags. |
| Tags.JoinTagsCons | app/page.tsx:796 | The editor text of two or more tags is the first tag, a comma, a space and the editor text of the rest. |
| Tags.NormalizeAtComma | app/page.tsx:809-812 | The tags typed before a comma come first, then those typed after it, so input order is kept. |
| Tags.NormalizeOnePiece | app/page.tsx:766-769 | Input without a comma gives its trimmed text as the only tag, or no tag when that text is empty. |
| Tags.NormalizeSkipsLeadingWhitespace | app/page.tsx:768 | Leading whitespace does not change the resulting tags. |
| Tags.NormalizeJoinTags | app/page.tsx:796 | Normalising `tags.join(", ")` gives back any list of normal tags, so opening a memo's tags in the editor and saving them unchanged keeps them. |
| Tags.NormalizeTagsIdempotent | app/page.tsx:809-812 | Normalising the editor text of normalised tags changes nothing. |
| Sorting.SortDesc | app/page.tsx:758-761 | The result is a permutation of the input and is non-increasing by the key. |
| Sorting.SortDescStable | app/page.tsx:758-761 | Elements with equal keys keep their input order, as the stable ECMAScript sort promises. |
| Query.SearchQuery | app/page.tsx:727 | The query is empty exactly when the search box holds only whitespace, and it has no capital letters. |
| Query.PassesFilter | app/page.tsx:730-734 | The filter button. `all` keeps every memo, `pinned` keeps the pinned ones, and `tasks`, `ideas`, `journal` and `notes` keep their category. |
| Query.HasActiveTag | app/page.tsx:735 | With an active tag, only memos that carry it pass. No tag, or the empty string, lets every memo pass. |
| Query.IsWithinInterval | app/page.tsx:739-742 | date-fns `isWithinInterval` with both ends inclusive. |
| Query.WithinDateRange | app/page.tsx:736-749 | The date check, branch by branch: no bound admits everything, both bounds give the interval, and one bound gives a one-sided inclusive comparison. |
| Query.MatchesQuery | app/page.tsx:750-756 | An empty query matches every memo. Otherwise the query must occur in the lower-cased content or in some lower-cased tag. |
| Query.FilteredMemos | app/page.tsx:726-762 | Every memo that passes the filter button, the active tag, the date range and the query appears as often as in the collection. No other memo appears. The list is newest first. |
| Query.FilteredMemosMembership | app/page.tsx:729-757 | A memo is listed exactly when it is in the collection and passes all four checks. |
| Query.FilteredMemosStable | app/page.tsx:758-761 | Memos with the same creation time are listed in collection order. |
| Query.WithinDateRangeAsBounds | app/page.tsx:736-749 | The date check is the conjunction of the bounds that are set, each inclusive. No bound admits everything. |
| Query.MatchesQueryMeaning | app/page.tsx:751-756 | A memo matches exactly when the query is empty, or occurs in the lower-cased content, or occurs in some lower-cased tag. |
| Query.BlankSearchMatchesAll | app/page.tsx:751 | A whitespace-only search lists every memo that the other three checks admit. |
| Query.UnfilteredIsPermutation | app/page.tsx:726-762 | With no filter, tag, range or search, the list is a permutation of the whole collection. |
| Query.ActiveTagNarrows | app/page.tsx:735 | Choosing an active tag can only remove memos from the list. |
| TagStats.TagUsage | app/page.tsx:693-701 | The nested loop over a `Map` counter yields exactly the distinct tags, each with its number of occurrences (positive). The entries have no duplicates, are sorted by count (highest first, ties in first-use order) and sum to the number of tag occurrences. |
| TagStats.CountTags | app/page.tsx:696-698 | The inner loop over one memo's tags keeps the counter exact: its keys are the tags seen so far in first-use order, and each maps to its number of occurrences. |
| TagStats.CountsStep | app/page.tsx:697 | One `counter.set(tag, (counter.get(tag) ?? 0) + 1)` keeps the counter exact after one more tag: a new tag is appended to the key order with count 1, a known tag's count goes up by one. |
| TagStats.SortedTallyFacts | app/page.tsx:700 | The sorted counter entries have exact positive counts, cover exactly the tags used, have no duplicate tag, are sorted by count and sum to the number of tag occurrences. |
| TagStats.TallyCounts | app/page.tsx:697 | Each entry's count is the tag's number of occurrences, and it is positive. |
| TagStats.TallyCoversTags | app/page.tsx:693-701 | A tag has an entry exactly when some memo carries it. |
| TagStats.TallyDistinctTags | app/page.tsx:700 | No tag has two entries. |
| TagStats.TallySum | app/page.tsx:693-701 | The counts of the distinct tags sum to the number of tag occurrences. |
| TagStats.SumSortDesc | app/page.tsx:700 | Sorting the entries does not change the total. |
| TagStats.DistinctNoDuplicates | app/page.tsx:697 | The counter's keys, in insertion order, are pairwise distinct. |
| TagStats.ComputeStats | app/page.tsx:703-710 | The total is the number of memos. The pinned and task counters never exceed the total. |
| TagStats.StatsMatchFilterButtons | app/page.tsx:703-710 | The pinned, task and total counters equal the lengths of the lists that the `pinned`, `tasks` and `all` buttons show. |
| Board.ComposeMemo | app/page.tsx:764-777 | No memo when the content is blank. Otherwise the memo has the given id and time, the composer's category and pin flag, the trimmed content (non-empty) and the normalised tags of the tag field. |
| Board.Edited | app/page.tsx:815-821 | `{ ...item, content, tags, createdAt }`: the memo with new content, tags and creation time, and the same id, category and pin flag. |
| Board.SaveKeepsIdsUnique | app/page.tsx:779 | Prepending a memo with a fresh id keeps ids unique. |
| Board.SaveStats | app/page.tsx:779 | Saving adds one to the total. It adds one to the pinned counter for a pinned memo, and one to the counter of tasks for a memo of category task. |
| Board.ReplaceById | app/page.tsx:813-824 | Same length and same ids. Every memo keeps its category and pin flag. Memos with another id are unchanged. Memos with the id take the new content, tags and time. |
| Board.ReplaceKeepsIdsUnique | app/page.tsx:813-824 | Editing a memo keeps the ids unique, because it keeps every id. |
| Board.ReplaceMissingId | app/page.tsx:813-824 | An id that no memo has leaves the collection unchanged. |
| Board.ReplaceByIdIdempotent | app/page.tsx:813-824 | Applying the same edit twice is the same as applying it once. |
| Board.ReplaceChangesOne | app/page.tsx:813-824 | With unique ids, exactly the one memo with the id is rewritten. |
| Board.ReplaceKeepsStats | app/page.tsx:813-824 | Editing never changes the counters. |
| Board.EditUnchangedRefreshesTimestamp | app/page.tsx:793-826 | In a collection with unique ids, take a memo whose content is trimmed and not blank and whose tags are normal. Opening it in the editor and saving it without changes only sets its creation time to now. |
| Board.IsEditing | app/page.tsx:806 | `!editingMemoId` is false: an id is set and it is not the empty string. |
| Board.Toggled | app/page.tsx:1082-1084 | Clicking the active tag clears it. Clicking any other tag makes that tag active. |
| Board.ToggleTwice | app/page.tsx:1082-1084 | Two clicks on the same tag restore the previous active tag exactly when there was none or it was that tag. In every other case they leave no active tag. |
| Board.MemoBoard.constructor | app/page.tsx:637-651 | The initial state: the demo memos, an empty composer (category note, unpinned), filter all, no tag, empty search, no date range, editor closed. The memo ids are unique. |
| Board.MemoBoard.Visible | app/page.tsx:726-762 | The rendered list, `filteredMemos` of the current state. It is a sub-multiset of the memos, newest first. |
| Board.MemoBoard.Save | app/page.tsx:764-784 | A blank composer changes nothing. Otherwise the composed memo is prepended and the composer resets to empty text and tags, unpinned, category note. Unique ids stay unique when the new id is fresh. |
| Board.MemoBoard.ApplyTemplate | app/page.tsx:786-791 | Each composer field takes the template's value. A missing content or tag list falls back to empty, a missing category to note, and pinned is set only for `pinned: true`. |
| Board.MemoBoard.EditMemo | app/page.tsx:793-797 | The editor holds the memo's id, its content and its tags joined with ", ". |
| Board.MemoBoard.CancelEdit | app/page.tsx:799-803 | The editor is closed and emptied. |
| Board.MemoBoard.UpdateMemo | app/page.tsx:805-826 | Nothing changes without an edited id or with blank content. Otherwise the memos become `ReplaceById` with the trimmed content, the normalised tags and now, and the editor closes. Unique ids stay unique. |
| Board.MemoBoard.Reset | app/page.tsx:837-847 | Memos, composer, filter, active tag, search and date range return to their initial values, so the memo ids are unique. The inline editor is untouched. |
| Board.MemoBoard.ToggleTag | app/page.tsx:1081-1084 | The active tag becomes `Toggled` of its previous value. When no tag was active, the new tag can only remove memos from the visible list. |

## Left out

- Rendering is not modelled: JSX, CSS classes, accent themes, localisation tables and the date-range label. They only present the state.
- Browser I/O is not modelled: loading and saving memos and preferences in `localStorage`, `JSON.parse` of saved data, and the clipboard copy.
- Dates are not parsed. `createdAt` is an ISO string in the page, and the model takes it as the integer millisecond value that `new Date(...).getTime()` yields. An unparsable string (NaN) is not modelled.
- Time zones are not modelled. `startOfDay`/`endOfDay` depend on the local time zone, so the model takes the resolved bounds as given.
- A date range whose start lies after its end admits nothing in the model. date-fns' own handling of such an interval is not modelled.
- `crypto.randomUUID`, `Date.now` and `new Date()` are parameters (`id`, `now`), because they are nondeterministic. A fresh id is therefore a hypothesis of `Save`'s uniqueness clause, not a fact the model proves.
- Strings are sequences of Unicode scalar values, not of UTF-16 code units as in JavaScript. A character outside the Basic Multilingual Plane counts as one character here and two code units in the page, which matters only for offsets; a lone surrogate cannot be represented.
- Text.ToLower: lower-cases only the Latin capitals A to Z. The full Unicode case mapping of `toLowerCase` is not modelled.
- Markdown rendering of memo content is not modelled (external library).
- Plain input setters are not modelled: `setContent`, `setTagsInput`, `setCategory`, `setPinned`, `setFilter`, `setSearch`, `setDateRange`, `setEditingContent` and `setEditingTagsInput`. Each only assigns one field.
- The accent and language preferences are not modelled (presentation only).
- The tag panel shows `[tag, count]` pairs. The model uses a `TagCount` record instead. Counts are unbounded naturals, so no overflow is modelled.
- The other pages of the repository (`app/typora/page.tsx`, `app/integration-demo/page.tsx`) are not part of this model. They are remote-storage and UI demos.
- Board.ToggleTwice: two clicks on the same tag do not always restore the previous active tag. Clicking tag b twice while tag a is active ends with no active tag. The lemma states the exact condition under which the tag is restored.
