/**
 * The side panel's aggregates: `tagUsage` (how often each tag is used, most
 * used first) and `stats` (memo, pinned and task counts).
 */
module TagStats {
  import opened Wrappers
  import opened Seqs
  import opened Sorting
  import opened Memos
  import Query

  /** Every tag of every memo, memo by memo, in collection order. */
  function AllTags(memos: seq<Memo>): seq<string> {
    if memos == [] then [] else AllTags(memos[..|memos| - 1]) + memos[|memos| - 1].tags
  }

  /** How often `t` occurs in `s`. */
  function Count(s: seq<string>, t: string): nat {
    if s == [] then 0 else Count(s[..|s| - 1], t) + (if s[|s| - 1] == t then 1 else 0)
  }

  /** The distinct elements of `s` in the order of their first occurrence. */
  function Distinct(s: seq<string>): (d: seq<string>)
    ensures forall t :: t in d <==> t in s
  {
    if s == [] then
      []
    else
      assert s == s[..|s| - 1] + [s[|s| - 1]];
      var d := Distinct(s[..|s| - 1]);
      if s[|s| - 1] in d then d else d + [s[|s| - 1]]
  }

  /** One `[tag, count]` entry of `tagUsage`. */
  datatype TagCount = TagCount(tag: string, count: nat)

  function CountOf(e: TagCount): int {
    e.count
  }

  /** The counter's entries in key order: each key with its number of occurrences in `s`. */
  function Tally(keys: seq<string>, s: seq<string>): (r: seq<TagCount>)
    ensures |r| == |keys|
  {
    seq(|keys|, k requires 0 <= k < |keys| => TagCount(keys[k], Count(s, keys[k])))
  }

  /** The counter's entries sorted by count, highest first. */
  function SortedTally(s: seq<string>): seq<TagCount> {
    SortDesc(Tally(Distinct(s), s), CountOf)
  }

  /** The total of the counts. */
  function SumCounts(es: seq<TagCount>): nat {
    if es == [] then 0 else es[0].count + SumCounts(es[1..])
  }

  /**
   * The counter after reading `seen`: `order` is its key order (a `Map` keeps
   * the order in which keys were first set) and each key maps to its count.
   */
  ghost predicate Counts(counter: map<string, nat>, order: seq<string>, seen: seq<string>) {
    && order == Distinct(seen)
    && (forall t :: t in counter <==> t in seen)
    && (forall t :: t in counter ==> counter[t] == Count(seen, t))
  }

  /** A key enters the order once, when it is first seen. */
  lemma {:induction false} DistinctNoDuplicates(s: seq<string>)
    ensures NoDuplicates(Distinct(s))
  {
    if s != [] {
      DistinctNoDuplicates(s[..|s| - 1]);
    }
  }

  lemma DistinctSnoc(s: seq<string>, x: string)
    ensures Distinct(s + [x]) == if x in s then Distinct(s) else Distinct(s) + [x]
  {
    assert (s + [x])[..|s|] == s;
  }

  lemma CountSnoc(s: seq<string>, x: string, t: string)
    ensures Count(s + [x], t) == Count(s, t) + (if t == x then 1 else 0)
  {
    assert (s + [x])[..|s|] == s;
  }

  /** `counter.set(tag, (counter.get(tag) ?? 0) + 1)` keeps the counter in step with one more tag read. */
  lemma CountsStep(counter: map<string, nat>, order: seq<string>, seen: seq<string>, tag: string)
    requires Counts(counter, order, seen)
    ensures Counts(counter[tag := (if tag in counter then counter[tag] else 0) + 1],
                   if tag in counter then order else order + [tag], seen + [tag])
  {
    var next := seen + [tag];
    DistinctSnoc(seen, tag);
    forall t ensures Count(next, t) == Count(seen, t) + (if t == tag then 1 else 0) {
      CountSnoc(seen, tag, t);
    }
    if tag !in seen {
      CountAbsent(seen, tag);
    }
  }

  /**
   * `tagUsage`: a `Map` counter filled memo by memo and tag by tag, then its
   * entries sorted by count, highest first.
   */
  method TagUsage(memos: seq<Memo>) returns (usage: seq<TagCount>)
    ensures usage == SortedTally(AllTags(memos))
    ensures forall k :: 0 <= k < |usage| ==> usage[k].count == Count(AllTags(memos), usage[k].tag) > 0
    ensures forall t :: t in AllTags(memos) <==> exists k :: 0 <= k < |usage| && usage[k].tag == t
    ensures forall i, j :: 0 <= i < j < |usage| ==> usage[i].tag != usage[j].tag
    ensures SortedDesc(usage, CountOf)
    ensures SumCounts(usage) == |AllTags(memos)|
  {
    var counter: map<string, nat> := map[];
    var order: seq<string> := [];
    ghost var seen: seq<string> := [];
    var i := 0;
    while i < |memos|
      invariant 0 <= i <= |memos|
      invariant seen == AllTags(memos[..i])
      invariant Counts(counter, order, seen)
    {
      counter, order := CountTags(counter, order, seen, memos[i].tags);
      AllTagsSnoc(memos, i);
      seen := seen + memos[i].tags;
      i := i + 1;
    }
    assert memos[..i] == memos;
    var entries := seq(|order|, k requires 0 <= k < |order| => TagCount(order[k], counter[order[k]]));
    assert entries == Tally(order, seen);
    usage := SortDesc(entries, CountOf);
    SortedTallyFacts(seen);
  }

  /** What `tagUsage` promises about the sorted tally of the tags `s`. */
  lemma SortedTallyFacts(s: seq<string>)
    ensures var usage := SortedTally(s);
      && (forall k :: 0 <= k < |usage| ==> usage[k].count == Count(s, usage[k].tag) > 0)
      && (forall t :: t in s <==> exists k :: 0 <= k < |usage| && usage[k].tag == t)
      && (forall i, j :: 0 <= i < j < |usage| ==> usage[i].tag != usage[j].tag)
      && SortedDesc(usage, CountOf)
      && SumCounts(usage) == |s|
  {
    TallyCounts(s);
    TallyCoversTags(s);
    TallyDistinctTags(s);
    SumSortDesc(Tally(Distinct(s), s));
    DistinctNoDuplicates(s);
    TallySum(Distinct(s), s);
  }

  /** The inner `memo.tags.forEach`: each tag of one memo bumps its count, a new tag enters the order. */
  method CountTags(counter0: map<string, nat>, order0: seq<string>, ghost seen: seq<string>, tags: seq<string>)
    returns (counter: map<string, nat>, order: seq<string>)
    requires Counts(counter0, order0, seen)
    ensures Counts(counter, order, seen + tags)
  {
    counter, order := counter0, order0;
    var j := 0;
    assert seen + tags[..j] == seen;
    while j < |tags|
      invariant 0 <= j <= |tags|
      invariant Counts(counter, order, seen + tags[..j])
    {
      var tag := tags[j];
      CountsStep(counter, order, seen + tags[..j], tag);
      order := if tag in counter then order else order + [tag];
      counter := counter[tag := (if tag in counter then counter[tag] else 0) + 1];
      SnocSlice(seen, tags, j);
      j := j + 1;
    }
    assert tags[..j] == tags;
  }

  lemma SnocSlice(before: seq<string>, tags: seq<string>, j: nat)
    requires j < |tags|
    ensures before + tags[..j + 1] == (before + tags[..j]) + [tags[j]]
  {
    assert tags[..j + 1] == tags[..j] + [tags[j]];
  }

  lemma AllTagsSnoc(memos: seq<Memo>, i: nat)
    requires i < |memos|
    ensures AllTags(memos[..i + 1]) == AllTags(memos[..i]) + memos[i].tags
  {
    assert memos[..i + 1][..i] == memos[..i];
  }

  /** Each entry of the sorted tally carries the number of occurrences of its tag, at least one. */
  lemma TallyCounts(s: seq<string>)
    ensures forall k :: 0 <= k < |SortedTally(s)| ==> SortedTally(s)[k].count == Count(s, SortedTally(s)[k].tag) > 0
  {
    var keys := Distinct(s);
    var tally := Tally(keys, s);
    var usage := SortedTally(s);
    assert usage == SortDesc(tally, CountOf);
    forall k | 0 <= k < |usage| ensures usage[k].count == Count(s, usage[k].tag) > 0 {
      assert usage[k] in multiset(tally);
      var n :| 0 <= n < |tally| && tally[n] == usage[k];
      CountPositive(s, keys[n]);
    }
  }

  /** The sorted tally has an entry for a tag exactly when some memo carries it. */
  lemma TallyCoversTags(s: seq<string>)
    ensures forall t :: t in s <==> exists k :: 0 <= k < |SortedTally(s)| && SortedTally(s)[k].tag == t
  {
    var keys := Distinct(s);
    var tally := Tally(keys, s);
    var usage := SortedTally(s);
    assert usage == SortDesc(tally, CountOf);
    assert multiset(usage) == multiset(tally);
    forall t | t in s ensures exists k :: 0 <= k < |usage| && usage[k].tag == t {
      var n :| 0 <= n < |keys| && keys[n] == t;
      assert tally[n] in multiset(usage);
      var k :| 0 <= k < |usage| && usage[k] == tally[n];
      assert usage[k].tag == t;
    }
    forall k | 0 <= k < |usage| ensures usage[k].tag in s {
      assert usage[k] in multiset(tally);
      var n :| 0 <= n < |tally| && tally[n] == usage[k];
      assert keys[n] in s;
    }
  }

  /** No tag has two entries in the sorted tally. */
  lemma TallyDistinctTags(s: seq<string>)
    ensures forall i, j :: 0 <= i < j < |SortedTally(s)| ==> SortedTally(s)[i].tag != SortedTally(s)[j].tag
  {
    var keys := Distinct(s);
    var tally := Tally(keys, s);
    var usage := SortedTally(s);
    assert usage == SortDesc(tally, CountOf);
    DistinctNoDuplicates(s);
    TallyNoDuplicates(keys, s);
    NoDuplicatesMultiset(tally);
    MultisetNoDuplicates(usage);
    forall i, j | 0 <= i < j < |usage| ensures usage[i].tag != usage[j].tag {
      assert usage[i] in multiset(tally) && usage[j] in multiset(tally);
    }
  }

  lemma {:induction false} CountAbsent(s: seq<string>, t: string)
    requires t !in s
    ensures Count(s, t) == 0
  {
    if s != [] {
      assert s == s[..|s| - 1] + [s[|s| - 1]];
      CountAbsent(s[..|s| - 1], t);
    }
  }

  lemma {:induction false} CountPositive(s: seq<string>, t: string)
    requires t in s
    ensures Count(s, t) > 0
  {
    if s[|s| - 1] != t {
      assert s == s[..|s| - 1] + [s[|s| - 1]];
      CountPositive(s[..|s| - 1], t);
    }
  }

  lemma TallyNoDuplicates(keys: seq<string>, s: seq<string>)
    requires NoDuplicates(keys)
    ensures NoDuplicates(Tally(keys, s))
  {
    var tally := Tally(keys, s);
    forall i, j | 0 <= i < j < |tally| ensures tally[i] != tally[j] {
      assert tally[i].tag == keys[i] && tally[j].tag == keys[j];
    }
  }

  lemma {:induction false} SumInsert(x: TagCount, es: seq<TagCount>)
    ensures SumCounts(Insert(x, es, CountOf)) == x.count + SumCounts(es)
  {
    if es != [] && CountOf(x) < CountOf(es[0]) {
      SumInsert(x, es[1..]);
      assert ([es[0]] + Insert(x, es[1..], CountOf))[1..] == Insert(x, es[1..], CountOf);
    } else {
      assert ([x] + es)[1..] == es;
    }
  }

  /** Sorting the entries does not change the total. */
  lemma {:induction false} SumSortDesc(es: seq<TagCount>)
    ensures SumCounts(SortDesc(es, CountOf)) == SumCounts(es)
  {
    if es != [] {
      SumSortDesc(es[1..]);
      SumInsert(es[0], SortDesc(es[1..], CountOf));
    }
  }

  lemma {:induction false} TallyOfNothing(keys: seq<string>)
    ensures SumCounts(Tally(keys, [])) == 0
  {
    if keys != [] {
      assert Tally(keys, [])[1..] == Tally(keys[1..], []);
      TallyOfNothing(keys[1..]);
    }
  }

  /** One more occurrence of `x` adds one to the total when `x` is a key, and nothing otherwise. */
  lemma {:induction false} TallyOneMore(keys: seq<string>, s: seq<string>, x: string)
    requires NoDuplicates(keys)
    ensures SumCounts(Tally(keys, s + [x])) == SumCounts(Tally(keys, s)) + (if x in keys then 1 else 0)
  {
    if keys != [] {
      assert Tally(keys, s + [x])[1..] == Tally(keys[1..], s + [x]);
      assert Tally(keys, s)[1..] == Tally(keys[1..], s);
      assert (s + [x])[..|s|] == s;
      assert x in keys <==> x == keys[0] || x in keys[1..] by {
        assert keys == [keys[0]] + keys[1..];
      }
      assert keys[0] !in keys[1..];
      TallyOneMore(keys[1..], s, x);
    }
  }

  /** Over keys that cover `s` once each, the counts add up to the length of `s`. */
  lemma {:induction false} TallySum(keys: seq<string>, s: seq<string>)
    requires NoDuplicates(keys)
    requires forall t :: t in s ==> t in keys
    ensures SumCounts(Tally(keys, s)) == |s|
  {
    if s == [] {
      TallyOfNothing(keys);
    } else {
      var init := s[..|s| - 1];
      assert s == init + [s[|s| - 1]];
      TallySum(keys, init);
      TallyOneMore(keys, init, s[|s| - 1]);
    }
  }

  /** `stats`: how many memos there are, how many are pinned and how many are tasks. */
  datatype Stats = Stats(total: nat, pinned: nat, tasks: nat)

  predicate IsPinned(m: Memo) {
    m.pinned
  }

  predicate IsTask(m: Memo) {
    m.category == Task
  }

  function ComputeStats(memos: seq<Memo>): (s: Stats)
    ensures s.total == |memos|
    ensures s.pinned <= s.total && s.tasks <= s.total
  {
    Stats(|memos|, |Filter(memos, IsPinned)|, |Filter(memos, IsTask)|)
  }

  /** The pinned and task counters equal the lengths of the lists the pinned and task buttons show. */
  lemma StatsMatchFilterButtons(memos: seq<Memo>)
    ensures ComputeStats(memos).pinned == |Query.FilteredMemos(memos, ShowPinned, None, "", NoDateRange)|
    ensures ComputeStats(memos).tasks == |Query.FilteredMemos(memos, ShowTasks, None, "", NoDateRange)|
    ensures ComputeStats(memos).total == |Query.FilteredMemos(memos, ShowAll, None, "", NoDateRange)|
  {
    var query := Query.SearchQuery("");
    assert query == [];
    var pinned := Query.Admitted(ShowPinned, None, query, NoDateRange);
    var tasks := Query.Admitted(ShowTasks, None, query, NoDateRange);
    var all := Query.Admitted(ShowAll, None, query, NoDateRange);
    FilterLengthPointwise(memos, IsPinned, memos, pinned);
    FilterLengthPointwise(memos, IsTask, memos, tasks);
    FilterLengthPointwise(memos, _ => true, memos, all);
    FilterAll(memos);
    assert |SortDesc(Filter(memos, pinned), Query.CreatedAt)| == |multiset(Filter(memos, pinned))|;
    assert |SortDesc(Filter(memos, tasks), Query.CreatedAt)| == |multiset(Filter(memos, tasks))|;
    assert |SortDesc(Filter(memos, all), Query.CreatedAt)| == |multiset(Filter(memos, all))|;
  }

  lemma {:induction false} FilterAll(memos: seq<Memo>)
    ensures |Filter(memos, _ => true)| == |memos|
  {
    if memos != [] {
      FilterAll(memos[1..]);
    }
  }
}
