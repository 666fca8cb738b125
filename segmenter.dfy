/** The rule-based sentence splitter that scopes the named-entity detector:
    a sentence ends just after the first terminator found from the cursor,
    extended over any run of closing brackets and quotes. */
module Segmenter {
  import opened Spans

  /** Sentence terminators: the ideographic and full-width full stops, the
      full-width and ASCII exclamation and question marks. */
  const SentEnd: string := "。．！？!?"

  /** Closing brackets and quotes that stay with the sentence they close
      (the source lists 】 twice). */
  const Closers: string := "」』］】）】〉》”’\"]"

  predicate IsTerminator(c: char)
  {
    c == '。' || c == '．' || c == '！' || c == '？' || c == '!' || c == '?'
  }

  predicate IsCloser(c: char)
  {
    || c == '」' || c == '』' || c == '］' || c == '】' || c == '）'
    || c == '〉' || c == '》' || c == '”' || c == '’' || c == '"' || c == ']'
  }

  /** The two predicates are exactly membership in the two character sets. */
  lemma {:induction false} CharClasses(c: char)
    ensures IsTerminator(c) <==> c in SentEnd
    ensures IsCloser(c) <==> c in Closers
  {
  }

  /** The search for the next terminator at or after index i: its index, or None
      when the rest of the text has none. */
  function FirstTerminator(text: string, i: nat): (r: Option<nat>)
    requires i <= |text|
    ensures r.Some? ==> i <= r.value < |text| && IsTerminator(text[r.value])
    ensures r.Some? ==> forall k :: i <= k < r.value ==> !IsTerminator(text[k])
    ensures r.None? ==> forall k :: i <= k < |text| ==> !IsTerminator(text[k])
    decreases |text| - i
  {
    if i == |text| then None
    else if IsTerminator(text[i]) then Some(i)
    else FirstTerminator(text, i + 1)
  }

  /** The end of the maximal run of closers that starts at index j. */
  function SkipClosers(text: string, j: nat): (r: nat)
    requires j <= |text|
    ensures j <= r <= |text|
    ensures forall k :: j <= k < r ==> IsCloser(text[k])
    ensures r < |text| ==> !IsCloser(text[r])
    decreases |text| - j
  {
    if j == |text| || !IsCloser(text[j]) then j else SkipClosers(text, j + 1)
  }

  /** Where the sentence that starts at i ends: just after the first terminator
      and its closers, or at the end of the text when no terminator remains. */
  function SentenceEnd(text: string, i: nat): (r: nat)
    requires i < |text|
    ensures i < r <= |text|
  {
    match FirstTerminator(text, i)
    case None => |text|
    case Some(k) => SkipClosers(text, k + 1)
  }

  /** The splitter's loop as a function: the sentences found so far are acc,
      the cursor is i. */
  function SplitFrom(text: string, acc: seq<(nat, nat)>, i: nat): seq<(nat, nat)>
    requires i <= |text|
    decreases |text| - i
  {
    if i == |text| then acc
    else SplitFrom(text, acc + [(i, SentenceEnd(text, i))], SentenceEnd(text, i))
  }

  /** The sentence spans of a whole text; the empty text is one empty sentence. */
  function Segments(text: string): seq<(nat, nat)>
  {
    if |text| == 0 then [(0, 0)] else SplitFrom(text, [], 0)
  }

  /** spans are the sentences of text[..i]: they tile [0, i) in order, and
      each one ends where the boundary rule puts the end of a sentence that
      starts at its start. */
  predicate SentencesUpTo(text: string, spans: seq<(nat, nat)>, i: nat)
  {
    && i <= |text|
    && (|spans| == 0 <==> i == 0)
    && (|spans| > 0 ==> spans[0].0 == 0 && spans[|spans| - 1].1 == i)
    && (forall t, u :: 0 <= t && u == t + 1 < |spans| ==> spans[t].1 == spans[u].0)
    && (forall t :: 0 <= t < |spans| ==>
          spans[t].0 < |text| && spans[t].1 == SentenceEnd(text, spans[t].0))
  }

  /** The spans tile [0, n): they start at 0, each starts where the previous
      one ended, each is non-empty unless the text is, and the last ends at n. */
  predicate Tiles(spans: seq<(nat, nat)>, n: nat)
  {
    && |spans| >= 1
    && spans[0].0 == 0
    && spans[|spans| - 1].1 == n
    && (forall t, u :: 0 <= t && u == t + 1 < |spans| ==> spans[t].1 == spans[u].0)
    && (forall t :: 0 <= t < |spans| ==> spans[t].0 <= spans[t].1 <= n)
    && (n > 0 ==> forall t :: 0 <= t < |spans| ==> spans[t].0 < spans[t].1)
  }

  lemma {:induction false} SplitFromSentences(text: string, acc: seq<(nat, nat)>, i: nat)
    requires SentencesUpTo(text, acc, i)
    ensures SentencesUpTo(text, SplitFrom(text, acc, i), |text|)
    decreases |text| - i
  {
    if i < |text| {
      var j := SentenceEnd(text, i);
      var acc' := acc + [(i, j)];
      assert acc'[|acc'| - 1] == (i, j);
      forall t, u | 0 <= t && u == t + 1 < |acc'| ensures acc'[t].1 == acc'[u].0 {
        if u < |acc| {
          assert acc'[t] == acc[t] && acc'[u] == acc[u];
        }
      }
      assert SentencesUpTo(text, acc', j);
      SplitFromSentences(text, acc', j);
    }
  }

  /** The segmentation tiles the text, every span ends where the boundary rule
      says the sentence starting at its start ends, and the empty text is the
      single empty sentence. */
  lemma {:induction false} SegmentsTile(text: string)
    ensures Tiles(Segments(text), |text|)
    ensures |text| == 0 ==> Segments(text) == [(0, 0)]
    ensures |text| > 0 ==> SentencesUpTo(text, Segments(text), |text|)
  {
    if |text| > 0 {
      SplitFromSentences(text, [], 0);
      var r := Segments(text);
      forall t | 0 <= t < |r| ensures r[t].0 < r[t].1 <= |text| {
        assert r[t].1 == SentenceEnd(text, r[t].0);
      }
    }
  }

  /** The text covered by the first k spans, in order. */
  function Concat(text: string, spans: seq<(nat, nat)>): string
    requires forall t :: 0 <= t < |spans| ==> spans[t].0 <= spans[t].1 <= |text|
  {
    if |spans| == 0 then []
    else Concat(text, spans[..|spans| - 1]) + text[spans[|spans| - 1].0..spans[|spans| - 1].1]
  }

  lemma {:induction false} ConcatPrefix(text: string, spans: seq<(nat, nat)>, i: nat)
    requires i <= |text|
    requires |spans| > 0 && spans[0].0 == 0 && spans[|spans| - 1].1 == i
    requires forall t, u :: 0 <= t && u == t + 1 < |spans| ==> spans[t].1 == spans[u].0
    requires forall t :: 0 <= t < |spans| ==> spans[t].0 <= spans[t].1 <= |text|
    ensures Concat(text, spans) == text[..i]
    decreases |spans|
  {
    if |spans| > 1 {
      var front := spans[..|spans| - 1];
      var mid := spans[|spans| - 2].1;
      assert front[|front| - 1] == spans[|spans| - 2];
      ConcatPrefix(text, front, mid);
      assert text[..i] == text[..mid] + text[mid..i];
    } else {
      assert spans[..0] == [];
    }
  }

  /** Concatenating the sentences gives back the text. */
  lemma {:induction false} SegmentsReassemble(text: string)
    ensures Tiles(Segments(text), |text|)
    ensures Concat(text, Segments(text)) == text
  {
    SegmentsTile(text);
    var r := Segments(text);
    assert forall t :: 0 <= t < |r| ==> r[t].0 <= r[t].1 <= |text|;
    ConcatPrefix(text, r, |text|);
  }

  /** The splitter's loop: search for the next terminator, absorb the closers
      after it, append the sentence and move the cursor. */
  method SentenceSpans(text: string) returns (spans: seq<(nat, nat)>)
    ensures spans == Segments(text)
    ensures Tiles(spans, |text|)
  {
    spans := [];
    var i: nat := 0;
    var n: nat := |text|;
    while i < n
      invariant i <= n
      invariant SplitFrom(text, spans, i) == SplitFrom(text, [], 0)
      invariant i == 0 <==> spans == []
    {
      var m := FirstTerminator(text, i);
      if m.None? {
        spans := spans + [(i, n)];
        break;
      }
      var endIdx := m.value + 1;
      var j := endIdx;
      while j < n && IsCloser(text[j])
        invariant endIdx <= j <= n
        invariant SkipClosers(text, j) == SkipClosers(text, endIdx)
      {
        j := j + 1;
      }
      spans := spans + [(i, j)];
      i := j;
    }
    if |spans| == 0 {
      spans := spans + [(0, n)];
    }
    SegmentsTile(text);
  }
}
