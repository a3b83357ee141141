/**
 * The board's state (the `useState` fields of the page) and the handlers that
 * change it: saving a new memo, filling the composer from a template, editing
 * a memo inline, resetting to the demo data and toggling the active tag.
 */
module Board {
  import opened Wrappers
  import opened Text
  import opened Seqs
  import opened Tags
  import opened Memos
  import opened Sorting
  import opened Query
  import opened TagStats

  /** The memo `handleSave` prepends, or `None` when the content is blank and nothing is saved. */
  function ComposeMemo(content: string, tagsInput: string, category: Category, pinned: bool,
                       id: string, now: int): (r: Option<Memo>)
    ensures r.None? <==> AllWhitespace(content)
    ensures r.Some? ==> && r.value.id == id && r.value.createdAt == now
                        && r.value.category == category && r.value.pinned == pinned
                        && r.value.content == Trim(content) && r.value.content != [] && IsTrimmed(r.value.content)
                        && r.value.tags == NormalizeTags(tagsInput)
                        && (forall k :: 0 <= k < |r.value.tags| ==> IsNormalTag(r.value.tags[k]))
  {
    var trimmed := Trim(content);
    if trimmed == [] then None else Some(Memo(id, trimmed, NormalizeTags(tagsInput), category, pinned, now))
  }

  /** `{ ...item, content, tags, createdAt }`. */
  function Edited(item: Memo, content: string, tags: seq<string>, now: int): Memo {
    item.(content := content, tags := tags, createdAt := now)
  }

  /** The per-id replacement of `handleUpdateMemo`: `prev.map((item) => item.id === id ? edited : item)`. */
  function ReplaceById(memos: seq<Memo>, id: string, content: string, tags: seq<string>, now: int): (r: seq<Memo>)
    ensures |r| == |memos| && Ids(r) == Ids(memos)
    ensures forall k :: 0 <= k < |r| ==> r[k].category == memos[k].category && r[k].pinned == memos[k].pinned
    ensures forall k :: 0 <= k < |r| && memos[k].id != id ==> r[k] == memos[k]
    ensures forall k :: 0 <= k < |r| && memos[k].id == id ==>
      r[k].content == content && r[k].tags == tags && r[k].createdAt == now
  {
    seq(|memos|, k requires 0 <= k < |memos| =>
      if memos[k].id == id then Edited(memos[k], content, tags, now) else memos[k])
  }

  /** An id that no memo has changes nothing. */
  lemma ReplaceMissingId(memos: seq<Memo>, id: string, content: string, tags: seq<string>, now: int)
    requires id !in Ids(memos)
    ensures ReplaceById(memos, id, content, tags, now) == memos
  {
    var r := ReplaceById(memos, id, content, tags, now);
    forall k | 0 <= k < |memos| ensures r[k] == memos[k] {
      assert Ids(memos)[k] == memos[k].id;
    }
  }

  /** Saving the same edit twice is the same as saving it once. */
  lemma ReplaceByIdIdempotent(memos: seq<Memo>, id: string, content: string, tags: seq<string>, now: int)
    ensures var once := ReplaceById(memos, id, content, tags, now);
      ReplaceById(once, id, content, tags, now) == once
  {
  }

  /** With unique ids, only the one memo that has the id is edited. */
  lemma ReplaceChangesOne(memos: seq<Memo>, k: nat, content: string, tags: seq<string>, now: int)
    requires UniqueIds(memos) && k < |memos|
    ensures ReplaceById(memos, memos[k].id, content, tags, now) == memos[k := Edited(memos[k], content, tags, now)]
  {
  }

  /** Editing a memo keeps the counters: it changes neither pin flags nor categories nor the number of memos. */
  lemma ReplaceKeepsStats(memos: seq<Memo>, id: string, content: string, tags: seq<string>, now: int)
    ensures ComputeStats(ReplaceById(memos, id, content, tags, now)) == ComputeStats(memos)
  {
    var r := ReplaceById(memos, id, content, tags, now);
    FilterLengthPointwise(r, IsPinned, memos, IsPinned);
    FilterLengthPointwise(r, IsTask, memos, IsTask);
  }

  /** Opening a memo in the editor and saving it unchanged only refreshes its timestamp. */
  lemma EditUnchangedRefreshesTimestamp(memos: seq<Memo>, k: nat, now: int)
    requires UniqueIds(memos) && k < |memos|
    requires !AllWhitespace(memos[k].content) && IsTrimmed(memos[k].content)
    requires forall n :: 0 <= n < |memos[k].tags| ==> IsNormalTag(memos[k].tags[n])
    ensures ReplaceById(memos, memos[k].id, Trim(memos[k].content), NormalizeTags(JoinTags(memos[k].tags)), now)
            == memos[k := memos[k].(createdAt := now)]
  {
    TrimOfTrimmed(memos[k].content);
    NormalizeJoinTags(memos[k].tags);
    ReplaceChangesOne(memos, k, memos[k].content, memos[k].tags, now);
  }

  /** A saved memo with a fresh id keeps the ids unique. */
  /** Editing a memo keeps ids unique, because it keeps every id. */
  lemma ReplaceKeepsIdsUnique(memos: seq<Memo>, id: string, content: string, tags: seq<string>, now: int)
    requires UniqueIds(memos)
    ensures UniqueIds(ReplaceById(memos, id, content, tags, now))
  {
    var r := ReplaceById(memos, id, content, tags, now);
    forall i, j | 0 <= i < j < |r| ensures r[i].id != r[j].id {
      assert r[i].id == Ids(r)[i] == Ids(memos)[i] && r[j].id == Ids(r)[j] == Ids(memos)[j];
    }
  }

  lemma SaveKeepsIdsUnique(memos: seq<Memo>, m: Memo)
    requires UniqueIds(memos) && m.id !in Ids(memos)
    ensures UniqueIds([m] + memos)
  {
    forall j | 1 <= j < |[m] + memos| ensures ([m] + memos)[j].id != m.id {
      assert Ids(memos)[j - 1] == memos[j - 1].id;
    }
  }

  /** Saving a memo adds one to the total, and one to the pinned and task counters when it is pinned or a task. */
  lemma SaveStats(memos: seq<Memo>, m: Memo)
    ensures var before := ComputeStats(memos);
      ComputeStats([m] + memos) == Stats(before.total + 1,
                                         before.pinned + (if m.pinned then 1 else 0),
                                         before.tasks + (if m.category == Task then 1 else 0))
  {
    assert ([m] + memos)[1..] == memos;
  }

  /** The new active tag after a click on `tag`: the same tag clears it, any other tag selects that one. */
  function Toggled(current: Option<string>, tag: string): (r: Option<string>)
    ensures r == None <==> current == Some(tag)
    ensures r != None ==> r == Some(tag)
  {
    if current == Some(tag) then None else Some(tag)
  }

  /** Two clicks on the same tag restore the previous active tag exactly when it was none or that tag. */
  lemma ToggleTwice(current: Option<string>, tag: string)
    ensures Toggled(Toggled(current, tag), tag) == current <==> current == None || current == Some(tag)
    ensures Toggled(Toggled(current, tag), tag) != current ==> Toggled(Toggled(current, tag), tag) == None
  {
  }

  /** A `Partial<Memo>` template: each field may be missing. */
  datatype MemoTemplate = MemoTemplate(content: Option<string>, tags: Option<seq<string>>,
                                       category: Option<Category>, pinned: Option<bool>)

  /** An id counts as set unless it is null or empty (both falsy). */
  predicate IsEditing(editingMemoId: Option<string>) {
    editingMemoId.Some? && editingMemoId.value != []
  }

  class MemoBoard {
    var memos: seq<Memo>
    var content: string
    var tagsInput: string
    var category: Category
    var pinned: bool
    var filter: FilterValue
    var activeTag: Option<string>
    var search: string
    var dateRange: DateRange
    var editingMemoId: Option<string>
    var editingContent: string
    var editingTagsInput: string

    /** The initial `useState` values. */
    constructor ()
      ensures memos == DemoMemos && content == [] && tagsInput == [] && category == Note && !pinned
      ensures filter == ShowAll && activeTag == None && search == [] && dateRange == NoDateRange
      ensures editingMemoId == None && editingContent == [] && editingTagsInput == []
      ensures UniqueIds(memos)
    {
      DemoMemosIdsUnique();
      memos := DemoMemos;
      content, tagsInput, category, pinned := [], [], Note, false;
      filter, activeTag, search, dateRange := ShowAll, None, [], NoDateRange;
      editingMemoId, editingContent, editingTagsInput := None, [], [];
    }

    /** The list the board renders. */
    function Visible(): (r: seq<Memo>)
      reads this
      ensures multiset(r) <= multiset(memos)
      ensures SortedDesc(r, CreatedAt)
    {
      FilteredMemos(memos, filter, activeTag, search, dateRange)
    }

    /**
     * `handleSave`: a blank composer saves nothing; otherwise the new memo goes
     * in front of the others and the composer is cleared.
     */
    method Save(id: string, now: int)
      modifies this`memos, this`content, this`tagsInput, this`pinned, this`category
      ensures AllWhitespace(old(content)) ==> unchanged(this)
      ensures !AllWhitespace(old(content)) ==>
        && memos == [ComposeMemo(old(content), old(tagsInput), old(category), old(pinned), id, now).value] + old(memos)
        && content == [] && tagsInput == [] && !pinned && category == Note
      ensures UniqueIds(old(memos)) && id !in Ids(old(memos)) ==> UniqueIds(memos)
    {
      var composed := ComposeMemo(content, tagsInput, category, pinned, id, now);
      if composed.None? {
        return;
      }
      if UniqueIds(memos) && id !in Ids(memos) {
        SaveKeepsIdsUnique(memos, composed.value);
      }
      memos := [composed.value] + memos;
      content := [];
      tagsInput := [];
      pinned := false;
      category := Note;
    }

    /** `handleTemplate`: fills the composer; a missing field falls back to its default. */
    method ApplyTemplate(template: MemoTemplate)
      modifies this`content, this`tagsInput, this`category, this`pinned
      ensures content == if template.content.Some? then template.content.value else []
      ensures tagsInput == if template.tags.Some? then JoinTags(template.tags.value) else []
      ensures category == if template.category.Some? then template.category.value else Note
      ensures pinned <==> template.pinned == Some(true)
    {
      content := if template.content.Some? then template.content.value else [];
      tagsInput := if template.tags.Some? then JoinTags(template.tags.value) else [];
      category := if template.category.Some? then template.category.value else Note;
      pinned := template.pinned == Some(true);
    }

    /** `handleEditMemo`: opens `memo` in the inline editor. */
    method EditMemo(memo: Memo)
      modifies this`editingMemoId, this`editingContent, this`editingTagsInput
      ensures editingMemoId == Some(memo.id) && editingContent == memo.content
      ensures editingTagsInput == JoinTags(memo.tags)
    {
      editingMemoId := Some(memo.id);
      editingContent := memo.content;
      editingTagsInput := JoinTags(memo.tags);
    }

    /** `handleCancelEdit`: closes the inline editor. */
    method CancelEdit()
      modifies this`editingMemoId, this`editingContent, this`editingTagsInput
      ensures editingMemoId == None && editingContent == [] && editingTagsInput == []
    {
      editingMemoId := None;
      editingContent := [];
      editingTagsInput := [];
    }

    /**
     * `handleUpdateMemo`: without an edited memo or with blank content nothing
     * happens; otherwise the memos with the edited id take the new content,
     * tags and timestamp and the editor closes.
     */
    method UpdateMemo(now: int)
      modifies this`memos, this`editingMemoId, this`editingContent, this`editingTagsInput
      ensures !IsEditing(old(editingMemoId)) || AllWhitespace(old(editingContent)) ==> unchanged(this)
      ensures IsEditing(old(editingMemoId)) && !AllWhitespace(old(editingContent)) ==>
        && memos == ReplaceById(old(memos), old(editingMemoId).value, Trim(old(editingContent)),
                                NormalizeTags(old(editingTagsInput)), now)
        && editingMemoId == None && editingContent == [] && editingTagsInput == []
      ensures UniqueIds(old(memos)) ==> UniqueIds(memos)
    {
      if !IsEditing(editingMemoId) {
        return;
      }
      var trimmedContent := Trim(editingContent);
      if trimmedContent == [] {
        return;
      }
      var updatedTags := NormalizeTags(editingTagsInput);
      if UniqueIds(memos) {
        ReplaceKeepsIdsUnique(memos, editingMemoId.value, trimmedContent, updatedTags, now);
      }
      memos := ReplaceById(memos, editingMemoId.value, trimmedContent, updatedTags, now);
      CancelEdit();
    }

    /** `resetDemo`: the demo memos, an empty composer and no filtering; the inline editor is left as it is. */
    method Reset()
      modifies this`memos, this`content, this`tagsInput, this`pinned, this`category
      modifies this`filter, this`activeTag, this`search, this`dateRange
      ensures memos == DemoMemos && content == [] && tagsInput == [] && !pinned && category == Note
      ensures filter == ShowAll && activeTag == None && search == [] && dateRange == NoDateRange
      ensures UniqueIds(memos)
    {
      DemoMemosIdsUnique();
      memos := DemoMemos;
      content := [];
      tagsInput := [];
      pinned := false;
      category := Note;
      filter := ShowAll;
      activeTag := None;
      search := [];
      dateRange := NoDateRange;
    }

    /** A click on a tag in the tag panel. */
    method ToggleTag(tag: string)
      modifies this`activeTag
      ensures activeTag == Toggled(old(activeTag), tag)
      ensures old(activeTag) == None ==> multiset(Visible()) <= multiset(old(Visible()))
    {
      if activeTag == None {
        ActiveTagNarrows(memos, filter, tag, search, dateRange);
      }
      activeTag := Toggled(activeTag, tag);
    }
  }
}
