/**
 * The comma-separated tag input of the composer and of the inline editor:
 * `input.split(",").map((tag) => tag.trim()).filter(Boolean)` and its
 * inverse direction, `tags.join(", ")`, which fills the editor.
 */
module Tags {
  import opened Text
  import opened Seqs

  /** A tag as normalisation leaves it: non-empty, no whitespace at either end, no comma. */
  predicate IsNormalTag(t: string) {
    t != [] && IsTrimmed(t) && ',' !in t
  }

  /** `.filter(Boolean)` on strings: the empty string is the only falsy one. */
  predicate IsNonEmpty(t: string) {
    t != []
  }

  /** `.map((tag) => tag.trim())`. */
  function TrimEach(pieces: seq<string>): (r: seq<string>)
    ensures |r| == |pieces|
    ensures forall k :: 0 <= k < |pieces| ==> r[k] == Trim(pieces[k])
  {
    if pieces == [] then [] else [Trim(pieces[0])] + TrimEach(pieces[1..])
  }

  /** The tag list the composer stores for the text typed into its tag field. */
  function NormalizeTags(input: string): (tags: seq<string>)
    ensures forall k :: 0 <= k < |tags| ==> IsNormalTag(tags[k])
  {
    var trimmed := TrimEach(Split(input, ','));
    TrimmedPiecesAreNormal(Split(input, ','));
    Filter(trimmed, IsNonEmpty)
  }

  /** The text the inline editor shows for a memo's tags. */
  function JoinTags(tags: seq<string>): string {
    Join(tags, ", ")
  }

  lemma {:induction false} TrimmedPiecesAreNormal(pieces: seq<string>)
    requires forall k :: 0 <= k < |pieces| ==> ',' !in pieces[k]
    ensures forall t :: t in TrimEach(pieces) && IsNonEmpty(t) ==> IsNormalTag(t)
  {
    if pieces != [] {
      TrimmedPiecesAreNormal(pieces[1..]);
      if ',' in Trim(pieces[0]) {
        TrimKeepsOnlyCharactersOf(pieces[0], ',');
      }
    }
  }

  lemma {:induction false} TrimEachAppend(a: seq<string>, b: seq<string>)
    ensures TrimEach(a + b) == TrimEach(a) + TrimEach(b)
  {
    if a == [] {
      assert a + b == b;
    } else {
      assert (a + b)[0] == a[0] && (a + b)[1..] == a[1..] + b;
      TrimEachAppend(a[1..], b);
    }
  }

  /** Input without a comma gives its trimmed text as the one tag, or no tag when that is empty. */
  lemma {:induction false} NormalizeOnePiece(s: string)
    requires ',' !in s
    ensures NormalizeTags(s) == if Trim(s) == [] then [] else [Trim(s)]
  {
    SplitWithoutSeparator(s, ',');
    assert TrimEach([s]) == [Trim(s)];
  }

  /** The tags before a comma come first, then the tags after it: normalisation keeps input order. */
  lemma {:induction false} NormalizeAtComma(a: string, b: string)
    ensures NormalizeTags(a + [','] + b) == NormalizeTags(a) + NormalizeTags(b)
  {
    SplitAtSeparator(a, ',', b);
    TrimEachAppend(Split(a, ','), Split(b, ','));
    FilterAppend(TrimEach(Split(a, ',')), TrimEach(Split(b, ',')), IsNonEmpty);
  }

  /** Whitespace in front of the input, such as the space `join(", ")` puts after each comma, is dropped. */
  lemma {:induction false} NormalizeSkipsLeadingWhitespace(c: char, s: string)
    requires IsWhitespace(c)
    ensures NormalizeTags([c] + s) == NormalizeTags(s)
  {
    var pieces := Split(s, ',');
    assert ([c] + s)[0] == c && ([c] + s)[1..] == s;
    assert Split([c] + s, ',') == [[c] + pieces[0]] + pieces[1..];
    TrimSkipsLeadingWhitespace(c, pieces[0]);
    assert pieces == [pieces[0]] + pieces[1..];
  }

  /** The editor text of two or more tags: the first tag, a comma, then a space and the rest. */
  lemma JoinTagsCons(tags: seq<string>)
    requires |tags| >= 2
    ensures JoinTags(tags) == tags[0] + [','] + ([' '] + JoinTags(tags[1..]))
  {
    var rest := JoinTags(tags[1..]);
    assert JoinTags(tags) == tags[0] + ", " + rest;
    assert ", " == [','] + [' '];
    AppendAssociates(tags[0], [','], [' ']);
    AppendAssociates(tags[0] + [','], [' '], rest);
  }

  /** Opening a memo's tags in the editor and saving them unchanged gives the same tags back. */
  lemma {:induction false} NormalizeJoinTags(tags: seq<string>)
    requires forall k :: 0 <= k < |tags| ==> IsNormalTag(tags[k])
    ensures NormalizeTags(JoinTags(tags)) == tags
  {
    if tags == [] {
      assert NormalizeTags([]) == Filter([Trim([])], IsNonEmpty);
    } else if |tags| == 1 {
      NormalizeOnePiece(tags[0]);
      TrimOfTrimmed(tags[0]);
    } else {
      var rest := JoinTags(tags[1..]);
      JoinTagsCons(tags);
      NormalizeAtComma(tags[0], [' '] + rest);
      NormalizeSkipsLeadingWhitespace(' ', rest);
      NormalizeJoinTags(tags[1..]);
      NormalizeOnePiece(tags[0]);
      TrimOfTrimmed(tags[0]);
      HeadAndTail(tags);
    }
  }

  /** Normalising the editor text of normalised tags changes nothing. */
  lemma NormalizeTagsIdempotent(input: string)
    ensures NormalizeTags(JoinTags(NormalizeTags(input))) == NormalizeTags(input)
  {
    NormalizeJoinTags(NormalizeTags(input));
  }
}
