/** Translating an original span into offsets of the masked text by walking the
    render map with one cursor in the original and one in the masked text. */
module Offsets {
  import opened Spans
  import opened Render

  /** The map describes regions in order: region k starts no earlier than the
      gap before it (so the first one at or after 0) and ends no earlier than
      it starts. Every map the renderer records has this shape. */
  predicate Ordered(entries: seq<RenderEntry>)
  {
    forall k :: 0 <= k < |entries| ==> OrderedAt(entries, k)
  }

  predicate OrderedAt(entries: seq<RenderEntry>, k: nat)
    requires k < |entries|
  {
    EndBefore(entries, k) <= entries[k].origStart <= entries[k].origEnd
  }

  /** The map the renderer records for valid regions is in order. */
  lemma {:induction false} RenderedMapOrdered(text: string, regions: seq<Span>, cfg: Config, out: Rendered)
    requires ValidRegions(regions, |text|) && RenderedAll(text, regions, cfg, out)
    ensures Ordered(out.entries)
  {
    var entries := out.entries;
    MirrorsBounds(regions, cfg, entries);
    forall k | 0 <= k < |entries| ensures OrderedAt(entries, k) {
      if k > 0 {
        assert regions[k - 1].end < regions[k].start;
      }
    }
  }

  /** Every replacement is exactly as long as its region. */
  predicate NoDrift(entries: seq<RenderEntry>)
  {
    forall k :: 0 <= k < |entries| ==> entries[k].renderedLen == entries[k].origEnd - entries[k].origStart
  }

  /** With lengths preserved and no fixed length, the map the renderer records
      has every replacement as long as its region. */
  lemma {:induction false} RenderedNoDrift(text: string, regions: seq<Span>, cfg: Config, out: Rendered)
    requires ValidRegions(regions, |text|) && RenderedAll(text, regions, cfg, out)
    requires cfg.fixedLength.None? && cfg.preserveLength
    ensures NoDrift(out.entries)
  {
    forall k | 0 <= k < |out.entries|
      ensures out.entries[k].renderedLen == out.entries[k].origEnd - out.entries[k].origStart
    {
      assert MirrorAt(regions, cfg, out.entries, k);
    }
  }

  /** Start offset p lies in the gap copied before region k. */
  predicate InGap(entries: seq<RenderEntry>, k: nat, p: int)
    requires k < |entries|
  {
    EndBefore(entries, k) <= p < entries[k].origStart
  }

  /** Start offset p lies in region k. */
  predicate InRegion(entries: seq<RenderEntry>, k: nat, p: int)
    requires k < |entries|
  {
    entries[k].origStart <= p < entries[k].origEnd
  }

  /** End offset p closes a piece of the gap before region k. */
  predicate EndInGap(entries: seq<RenderEntry>, k: nat, p: int)
    requires k < |entries|
  {
    EndBefore(entries, k) < p <= entries[k].origStart
  }

  /** End offset p closes a piece of region k. */
  predicate EndInRegion(entries: seq<RenderEntry>, k: nat, p: int)
    requires k < |entries|
  {
    entries[k].origStart < p <= entries[k].origEnd
  }

  /** What the walk knows about the start after the first i regions: it is
      resolved exactly when it lies before the end of region i - 1, and then to
      the position the gap or region holding it has in the masked text. */
  ghost predicate StartSoFar(entries: seq<RenderEntry>, i: nat, p: int, start: Option<int>)
    requires i <= |entries|
  {
    && (start.Some? <==> 0 <= p < EndBefore(entries, i))
    && (forall k :: 0 <= k < i && InGap(entries, k, p) ==> start == Some(p + ShiftBefore(entries, k)))
    && (forall k :: 0 <= k < i && InRegion(entries, k, p) ==> start == Some(MaskedStart(entries, k)))
  }

  /** The same for the end, whose pieces are closed on the right. */
  ghost predicate EndSoFar(entries: seq<RenderEntry>, i: nat, p: int, end: Option<int>)
    requires i <= |entries|
  {
    && (end.Some? <==> 0 < p <= EndBefore(entries, i))
    && (forall k :: 0 <= k < i && EndInGap(entries, k, p) ==> end == Some(p + ShiftBefore(entries, k)))
    && (forall k :: 0 <= k < i && EndInRegion(entries, k, p) ==> end == Some(MaskedStart(entries, k) + entries[k].renderedLen))
  }

  /** One region further: an unresolved start is resolved by the gap or the
      region that holds it, a resolved one stays. */
  lemma {:induction false} StartStep(entries: seq<RenderEntry>, i: nat, p: int, start: Option<int>, start': Option<int>)
    requires Ordered(entries) && i < |entries| && StartSoFar(entries, i, p, start)
    requires start.Some? ==> start' == start
    requires start.None? && InGap(entries, i, p) ==> start' == Some(p + ShiftBefore(entries, i))
    requires start.None? && InRegion(entries, i, p) ==> start' == Some(MaskedStart(entries, i))
    requires start.None? && !InGap(entries, i, p) && !InRegion(entries, i, p) ==> start' == None
    ensures StartSoFar(entries, i + 1, p, start')
  {
    assert OrderedAt(entries, i);
    assert EndBefore(entries, i + 1) == entries[i].origEnd;
    EndBeforeMonotone(entries, 0, i);
    forall k | 0 <= k < i + 1 && InGap(entries, k, p) ensures start' == Some(p + ShiftBefore(entries, k)) {
      if k < i {
        EndBeforeMonotone(entries, k + 1, i);
      }
    }
    forall k | 0 <= k < i + 1 && InRegion(entries, k, p) ensures start' == Some(MaskedStart(entries, k)) {
      if k < i {
        EndBeforeMonotone(entries, k + 1, i);
      }
    }
  }

  /** The same for the end. */
  lemma {:induction false} EndStep(entries: seq<RenderEntry>, i: nat, p: int, end: Option<int>, end': Option<int>)
    requires Ordered(entries) && i < |entries| && EndSoFar(entries, i, p, end)
    requires end.Some? ==> end' == end
    requires end.None? && EndInGap(entries, i, p) ==> end' == Some(p + ShiftBefore(entries, i))
    requires end.None? && EndInRegion(entries, i, p) ==> end' == Some(MaskedStart(entries, i) + entries[i].renderedLen)
    requires end.None? && !EndInGap(entries, i, p) && !EndInRegion(entries, i, p) ==> end' == None
    ensures EndSoFar(entries, i + 1, p, end')
  {
    assert OrderedAt(entries, i);
    assert EndBefore(entries, i + 1) == entries[i].origEnd;
    EndBeforeMonotone(entries, 0, i);
    forall k | 0 <= k < i + 1 && EndInGap(entries, k, p) ensures end' == Some(p + ShiftBefore(entries, k)) {
      if k < i {
        EndBeforeMonotone(entries, k + 1, i);
      }
    }
    forall k | 0 <= k < i + 1 && EndInRegion(entries, k, p)
      ensures end' == Some(MaskedStart(entries, k) + entries[k].renderedLen)
    {
      if k < i {
        EndBeforeMonotone(entries, k + 1, i);
      }
    }
  }

  /** In an ordered map the gaps start further right the later they come. */
  lemma {:induction false} EndBeforeMonotone(entries: seq<RenderEntry>, j: nat, k: nat)
    requires Ordered(entries) && j <= k <= |entries|
    ensures EndBefore(entries, j) <= EndBefore(entries, k)
    decreases k - j
  {
    if j < k {
      assert OrderedAt(entries, j);
      EndBeforeMonotone(entries, j + 1, k);
    }
  }

  /** The walk over the render map inside `calc_masked_offsets`: both cursors
      end after the last region, and start and end are resolved exactly where
      StartSoFar and EndSoFar say. */
  method WalkMap(entries: seq<RenderEntry>, s: Span) returns (start: Option<int>, end: Option<int>, maskedCursor: int, origCursor: int)
    ensures origCursor == EndBefore(entries, |entries|)
    ensures Ordered(entries) ==> maskedCursor == EndBefore(entries, |entries|) + ShiftBefore(entries, |entries|)
    ensures Ordered(entries) ==> StartSoFar(entries, |entries|, s.start, start)
    ensures Ordered(entries) ==> EndSoFar(entries, |entries|, s.end, end)
  {
    maskedCursor := 0;
    origCursor := 0;
    start := None;
    end := None;
    for i := 0 to |entries|
      invariant origCursor == EndBefore(entries, i)
      invariant Ordered(entries) ==> maskedCursor == EndBefore(entries, i) + ShiftBefore(entries, i)
      invariant Ordered(entries) ==> StartSoFar(entries, i, s.start, start)
      invariant Ordered(entries) ==> EndSoFar(entries, i, s.end, end)
    {
      var e := entries[i];
      ghost var start0, end0 := start, end;
      assert Ordered(entries) ==> OrderedAt(entries, i);
      if origCursor < e.origStart {
        var gap := e.origStart - origCursor;
        if s.start >= origCursor && s.start < e.origStart && start.None? {
          start := Some(maskedCursor + (s.start - origCursor));
        }
        if s.end > origCursor && s.end <= e.origStart && end.None? {
          end := Some(maskedCursor + (s.end - origCursor));
        }
        maskedCursor := maskedCursor + gap;
        origCursor := e.origStart;
      }
      if s.start >= e.origStart && s.start < e.origEnd && start.None? {
        start := Some(maskedCursor);
      }
      if s.end > e.origStart && s.end <= e.origEnd && end.None? {
        end := Some(maskedCursor + e.renderedLen);
      }
      maskedCursor := maskedCursor + e.renderedLen;
      origCursor := e.origEnd;
      if Ordered(entries) {
        StartStep(entries, i, s.start, start0, start);
        EndStep(entries, i, s.end, end0, end);
      }
    }
  }

  /** Python's nested `calc_masked_offsets` inside `mask`, with `len(text)` as
      n and `masked_offset_map` as entries. For a map in order it returns, for
      each end of s, the masked position of the gap or region holding it, the
      position after the text when only the trailing gap holds it, and falls back
      to s.start (for the start) and to the start (for the end) otherwise. */
  method CalcMaskedOffsets(n: int, entries: seq<RenderEntry>, s: Span) returns (maskedStart: int, maskedEnd: int)
    ensures Ordered(entries) ==>
      forall k :: 0 <= k < |entries| && InRegion(entries, k, s.start) ==> maskedStart == MaskedStart(entries, k)
    ensures Ordered(entries) ==>
      forall k :: 0 <= k < |entries| && InGap(entries, k, s.start) ==> maskedStart == s.start + ShiftBefore(entries, k)
    ensures Ordered(entries) && EndBefore(entries, |entries|) < n && EndBefore(entries, |entries|) <= s.start ==>
      maskedStart == s.start + ShiftBefore(entries, |entries|)
    ensures Ordered(entries) && !(0 <= s.start < EndBefore(entries, |entries|)) &&
            !(EndBefore(entries, |entries|) < n && EndBefore(entries, |entries|) <= s.start) ==>
      maskedStart == s.start
    ensures Ordered(entries) ==>
      forall k :: 0 <= k < |entries| && EndInRegion(entries, k, s.end) ==>
        maskedEnd == MaskedStart(entries, k) + entries[k].renderedLen
    ensures Ordered(entries) ==>
      forall k :: 0 <= k < |entries| && EndInGap(entries, k, s.end) ==> maskedEnd == s.end + ShiftBefore(entries, k)
    ensures Ordered(entries) && EndBefore(entries, |entries|) < n && EndBefore(entries, |entries|) <= s.end &&
            !(0 < s.end <= EndBefore(entries, |entries|)) ==>
      maskedEnd == s.end + ShiftBefore(entries, |entries|)
    ensures Ordered(entries) && !(0 < s.end <= EndBefore(entries, |entries|)) &&
            !(EndBefore(entries, |entries|) < n && EndBefore(entries, |entries|) <= s.end) ==>
      maskedEnd == maskedStart
    ensures Ordered(entries) && NoDrift(entries) ==>
      forall k :: 0 <= k < |entries| && entries[k].origStart <= s.start < s.end <= entries[k].origEnd ==>
        maskedStart == entries[k].origStart && maskedEnd == entries[k].origEnd
  {
    var start, end, maskedCursor, origCursor := WalkMap(entries, s);
    if origCursor < n {
      if start.None? && s.start >= origCursor {
        start := Some(maskedCursor + (s.start - origCursor));
      }
      if end.None? && s.end >= origCursor {
        end := Some(maskedCursor + (s.end - origCursor));
      }
    }
    maskedStart := if start.Some? then start.value else s.start;
    maskedEnd := if end.Some? then end.value else maskedStart;
    if NoDrift(entries) {
      forall k | 0 <= k <= |entries| ensures ShiftBefore(entries, k) == 0 {
        ShiftBeforeZero(entries, k);
      }
    }
  }

  /** The non-empty span s lies inside region k of the map. */
  predicate InsideRegion(entries: seq<RenderEntry>, k: nat, s: Span)
    requires k < |entries|
  {
    entries[k].origStart <= s.start < s.end <= entries[k].origEnd
  }

  /** The loop over the detected spans at the end of `mask`: compute each
      span's masked offsets and append the span itself, unchanged. The offsets
      are discarded, as in the source; the ghost `offsets` records them. For a
      map in order without drift, a non-empty span inside one region gets that
      region's own bounds. */
  method AttachMaskedOffsets(n: int, entries: seq<RenderEntry>, detected: seq<Span>)
    returns (withMasked: seq<Span>, ghost offsets: seq<(int, int)>)
    ensures withMasked == detected
    ensures |offsets| == |detected|
    ensures Ordered(entries) && NoDrift(entries) ==>
      forall j, k :: 0 <= j < |detected| && 0 <= k < |entries| && InsideRegion(entries, k, detected[j]) ==>
        offsets[j] == (entries[k].origStart, entries[k].origEnd)
  {
    withMasked, offsets := [], [];
    for j := 0 to |detected|
      invariant withMasked == detected[..j]
      invariant |offsets| == j
      invariant Ordered(entries) && NoDrift(entries) ==>
        forall i, k :: 0 <= i < j && 0 <= k < |entries| && InsideRegion(entries, k, detected[i]) ==>
          offsets[i] == (entries[k].origStart, entries[k].origEnd)
    {
      var maskedStart, maskedEnd := CalcMaskedOffsets(n, entries, detected[j]);
      offsets := offsets + [(maskedStart, maskedEnd)];
      withMasked := withMasked + [detected[j]];
    }
  }
}
