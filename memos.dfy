/** The memo record, the filter values of the board and the demo fixture. */
module Memos {
  import opened Wrappers

  datatype Category = Note | Idea | Task | Journal

  /** One memo; `createdAt` is its creation instant in milliseconds since the epoch. */
  datatype Memo = Memo(id: string, content: string, tags: seq<string>, category: Category, pinned: bool, createdAt: int)

  /** The filter buttons: all memos, pinned ones, or one category. */
  datatype FilterValue = ShowAll | ShowPinned | ShowTasks | ShowIdeas | ShowJournal | ShowNotes

  /**
   * The picked date range as bounds on `createdAt`: `from` is already the start of its day
   * and `to` the end of its day; an absent bound does not restrict.
   */
  datatype DateRange = DateRange(from: Option<int>, to: Option<int>)

  const NoDateRange := DateRange(None, None)

  /** The four memos the board starts with and returns to on reset. */
  const DemoMemos: seq<Memo> := [
    Memo("1", "Ship v1.4 today. Keep the release note tight and highlight the frictionless capture flow.",
      ["product", "release"], Task, true, 1714564800000),
    Memo("2", "Memo inbox should accept inline #tags and auto-link. Keeps focus on writing while staying organized.",
      ["idea", "ux"], Idea, false, 1714473000000),
    Memo("3", "Retro: small wins stack fast. Pair programming sessions felt lighter when we started with a tiny note first.",
      ["journal", "team"], Journal, false, 1714378500000),
    Memo("4", "Checklist: tighten meeting agendas, leave one takeaway memo, and send async summary before EOD.",
      ["note", "execution"], Note, false, 1714284000000)
  ]

  function Ids(memos: seq<Memo>): (ids: seq<string>)
    ensures |ids| == |memos| && forall k :: 0 <= k < |memos| ==> ids[k] == memos[k].id
  {
    seq(|memos|, k requires 0 <= k < |memos| => memos[k].id)
  }

  /** No two memos of the collection share an id. */
  predicate UniqueIds(memos: seq<Memo>) {
    forall i, j :: 0 <= i < j < |memos| ==> memos[i].id != memos[j].id
  }

  /** The demo fixture's four ids are distinct. */
  lemma DemoMemosIdsUnique()
    ensures |DemoMemos| == 4 && UniqueIds(DemoMemos)
  {
  }
}
