/** `Masker.mask`: detect, merge, render, and hand back the masked text with
    the detected spans as they were found. */
module Masker {
  import opened Spans
  import opened Segmenter
  import opened Detect
  import opened Merge
  import opened Render
  import opened Offsets

  /** The recogniser and the pattern finders report offsets inside what they
      are given, for this text and its sentences. */
  predicate DetectorsFit(d: Detectors, text: string)
  {
    && FindersFit(d, text)
    && SentencesFit(Segments(text), |text|)
    && NlpFits(d, text, Segments(text))
  }

  /** Detectors sound on every string fit every text. */
  lemma {:induction false} SoundDetectorsFit(d: Detectors, text: string)
    requires DetectorsSound(d)
    ensures DetectorsFit(d, text)
  {
    SegmentsTile(text);
    SoundFits(d, text, Segments(text));
  }

  /** Every span `mask` detects on text: the recogniser's kept hits sentence by
      sentence, then the pattern hits. */
  function Detected(text: string, targets: Option<seq<string>>, d: Detectors): seq<Span>
    requires DetectorsFit(d, text)
  {
    NerSpans(text, Segments(text), AllowSet(targets), d) + RegexSpans(text, AllowSet(targets), d)
  }

  /** Rendering divides by the length of the empty replacement: with a
      positive fixed length as soon as anything was detected, when preserving
      lengths as soon as a non-empty span was detected. */
  predicate MaskFails(cfg: Config, detected: seq<Span>)
  {
    && |cfg.replacement| == 0
    && match cfg.fixedLength
       case Some(f) => f > 0 && |detected| > 0
       case None => cfg.preserveLength && exists s <- detected :: s.start < s.end
  }

  /** Every detected span lies in the text and records the text it covers. */
  lemma {:induction false} DetectedInBounds(text: string, targets: Option<seq<string>>, d: Detectors)
    requires DetectorsFit(d, text)
    ensures forall s <- Detected(text, targets, d) :: InBounds(s, |text|) && s.text == text[s.start..s.end]
  {
    var allow := AllowSet(targets);
    var ner, rx := NerSpans(text, Segments(text), allow, d), RegexSpans(text, allow, d);
    RegexSpansSound(text, allow, d);
    forall s <- Detected(text, targets, d) ensures InBounds(s, |text|) && s.text == text[s.start..s.end] {
      if s in ner {
        NerSpansSound(text, Segments(text), allow, d, s);
      } else {
        assert s in rx;
        var i :| 0 <= i < |rx| && rx[i] == s;
      }
    }
  }

  /** The merged regions of spans inside a text of length n are regions the
      renderer accepts. */
  lemma {:induction false} MergedValid(spans: seq<Span>, merged: seq<Span>, n: int)
    requires forall s <- spans :: InBounds(s, n)
    requires Separated(merged)
    requires forall k :: 0 <= k < |merged| ==> Anchored(merged, k, spans)
    requires WellFormed(spans) ==> forall k :: 0 <= k < |merged| ==> merged[k].start <= merged[k].end
    ensures ValidRegions(merged, n)
  {
    forall k | 0 <= k < |merged| ensures 0 <= merged[k].start <= merged[k].end <= n {
      assert Anchored(merged, k, spans);
    }
  }

  /** A region of positive length exists exactly when a detected span of
      positive length does. */
  lemma {:induction false} NonEmptyRegion(spans: seq<Span>, merged: seq<Span>)
    requires forall s <- spans :: InSomeRegion(s, merged)
    requires forall k, p :: 0 <= k < |merged| && Covers(merged[k], p) ==> CoveredBy(spans, p)
    ensures (exists k :: 0 <= k < |merged| && RegionLen(merged[k]) > 0) <==> exists s <- spans :: s.start < s.end
  {
    if exists k :: 0 <= k < |merged| && RegionLen(merged[k]) > 0 {
      var k :| 0 <= k < |merged| && RegionLen(merged[k]) > 0;
      assert Covers(merged[k], merged[k].start);
      assert CoveredBy(spans, merged[k].start);
      var j :| 0 <= j < |spans| && Covers(spans[j], merged[k].start);
      assert spans[j] in spans;
    }
    if exists s <- spans :: s.start < s.end {
      var s :| s in spans && s.start < s.end;
      assert InSomeRegion(s, merged);
      var k :| 0 <= k < |merged| && Within(s, merged[k]);
      assert 0 <= k < |merged| && RegionLen(merged[k]) > 0;
    }
  }

  /** The renderer fails on the merged regions exactly when MaskFails holds of
      the detected spans. */
  lemma {:induction false} FailsExactly(cfg: Config, spans: seq<Span>, merged: seq<Span>)
    requires |merged| == 0 <==> |spans| == 0
    requires forall s <- spans :: InSomeRegion(s, merged)
    requires forall k, p :: 0 <= k < |merged| && Covers(merged[k], p) ==> CoveredBy(spans, p)
    ensures SomeFails(merged, cfg) <==> MaskFails(cfg, spans)
  {
    NonEmptyRegion(spans, merged);
    if MaskFails(cfg, spans) {
      if cfg.fixedLength.Some? {
        assert RepeatFails(cfg, RegionLen(merged[0]));
      } else {
        var k :| 0 <= k < |merged| && RegionLen(merged[k]) > 0;
        assert RepeatFails(cfg, RegionLen(merged[k]));
      }
    }
  }

  /** Regions in order stay apart however far apart they are listed. */
  lemma {:induction false} RegionsApart(merged: seq<Span>, n: int, i: nat, j: nat)
    requires ValidRegions(merged, n) && i < j < |merged|
    ensures merged[i].end < merged[j].start
    decreases j - i
  {
    if i + 1 < j {
      RegionsApart(merged, n, i, j - 1);
    }
  }

  /** No detected span covers the position just before a merged region. */
  lemma {:induction false} RegionStartsRun(spans: seq<Span>, merged: seq<Span>, n: int, k: nat)
    requires ValidRegions(merged, n) && k < |merged|
    requires forall s <- spans :: InSomeRegion(s, merged)
    ensures !CoveredBy(spans, merged[k].start - 1)
  {
    var a := merged[k].start;
    forall j | 0 <= j < |spans| ensures !Covers(spans[j], a - 1) {
      assert spans[j] in spans;
      assert InSomeRegion(spans[j], merged);
      var l :| 0 <= l < |merged| && Within(spans[j], merged[l]);
      if l < k {
        RegionsApart(merged, n, l, k);
      } else if k < l {
        RegionsApart(merged, n, k, l);
      }
    }
  }

  /** p lies in the maximal run of covered positions that begins at start. */
  predicate RunFrom(spans: seq<Span>, start: int, p: int)
  {
    && start <= p
    && !CoveredBy(spans, start - 1)
    && forall q :: start <= q <= p ==> CoveredBy(spans, q)
  }

  /** The masked text under the default options (lengths preserved, no fixed
      length): as long as the text, every position no span covers keeps its
      character, and every covered position holds the token cycled from the
      start of the run of covered positions holding it, which is where some
      span starts. */
  predicate DefaultLayout(text: string, spans: seq<Span>, token: string, masked: string)
  {
    && |masked| == |text|
    && (forall p :: 0 <= p < |text| && !CoveredBy(spans, p) ==> masked[p] == text[p])
    && (forall p :: 0 <= p < |text| && CoveredBy(spans, p) ==>
          exists s <- spans :: RunFrom(spans, s.start, p) && Cycled(token, s.start, p, masked))
  }

  /** masked is the rendering, under cfg, of regions that merge the spans:
      separated regions inside the text, each holding the spans it absorbed,
      starting and ending where spans do, and covering only covered positions. */
  ghost predicate RenderedFrom(text: string, spans: seq<Span>, cfg: Config, masked: string)
  {
    exists merged: seq<Span>, entries: seq<RenderEntry> ::
      && ValidRegions(merged, |text|)
      && (forall s <- spans :: InSomeRegion(s, merged))
      && (forall k :: 0 <= k < |merged| ==> Anchored(merged, k, spans))
      && (forall k, p :: 0 <= k < |merged| && Covers(merged[k], p) ==> CoveredBy(spans, p))
      && RenderedAll(text, merged, cfg, Rendered(masked, entries))
  }

  /** With lengths preserved, the layout of the merged regions is the layout
      of the detected spans. */
  lemma {:induction false} LayoutOfDetected(text: string, spans: seq<Span>, merged: seq<Span>, cfg: Config, out: Rendered)
    requires ValidRegions(merged, |text|) && RenderedAll(text, merged, cfg, out)
    requires cfg.fixedLength.None? && cfg.preserveLength
    requires forall s <- spans :: InSomeRegion(s, merged)
    requires forall k :: 0 <= k < |merged| ==> Anchored(merged, k, spans)
    requires forall k, p :: 0 <= k < |merged| && Covers(merged[k], p) ==> CoveredBy(spans, p)
    ensures DefaultLayout(text, spans, cfg.replacement, out.masked)
  {
    PreservedLayout(text, merged, cfg, out);
    UncoveredOfDetected(text, spans, merged, out.masked);
    CoveredOfDetected(spans, merged, |text|, cfg.replacement, out.masked);
  }

  /** A position no detected span covers lies outside every merged region. */
  lemma {:induction false} UncoveredOfDetected(text: string, spans: seq<Span>, merged: seq<Span>, masked: string)
    requires |masked| == |text|
    requires forall p :: 0 <= p < |text| && Uncovered(merged, p) ==> masked[p] == text[p]
    requires forall k, p :: 0 <= k < |merged| && Covers(merged[k], p) ==> CoveredBy(spans, p)
    ensures forall p :: 0 <= p < |text| && !CoveredBy(spans, p) ==> masked[p] == text[p]
  {
    forall p | 0 <= p < |text| && !CoveredBy(spans, p) ensures masked[p] == text[p] {
      assert Uncovered(merged, p);
    }
  }

  /** A position some detected span covers lies in a merged region, which
      starts where a detected span does and where the run of covered
      positions holding it begins. */
  lemma {:induction false} CoveredOfDetected(spans: seq<Span>, merged: seq<Span>, n: int, token: string, masked: string)
    requires ValidRegions(merged, n)
    requires forall k, p :: 0 <= k < |merged| && Covers(merged[k], p) ==> Cycled(token, merged[k].start, p, masked)
    requires forall s <- spans :: InSomeRegion(s, merged)
    requires forall k :: 0 <= k < |merged| ==> Anchored(merged, k, spans)
    requires forall k, p :: 0 <= k < |merged| && Covers(merged[k], p) ==> CoveredBy(spans, p)
    ensures forall p :: CoveredBy(spans, p) ==>
      exists s <- spans :: RunFrom(spans, s.start, p) && Cycled(token, s.start, p, masked)
  {
    forall p | CoveredBy(spans, p)
      ensures exists s <- spans :: RunFrom(spans, s.start, p) && Cycled(token, s.start, p, masked)
    {
      var j :| 0 <= j < |spans| && Covers(spans[j], p);
      assert InSomeRegion(spans[j], merged);
      var k :| 0 <= k < |merged| && Within(spans[j], merged[k]);
      assert Covers(merged[k], p);
      assert Anchored(merged, k, spans);
      var s :| s in spans && s.start == merged[k].start;
      RegionStartsRun(spans, merged, n, k);
      forall q | s.start <= q <= p ensures CoveredBy(spans, q) {
        assert Covers(merged[k], q);
      }
      assert RunFrom(spans, s.start, p);
      assert Cycled(token, s.start, p, masked);
    }
  }

  /** With lengths preserved and no fixed length the renderer's map is in order and without
      drift, and every non-empty detected span lies inside the map entry of
      the merged region holding it, so the masked offsets of that span are the
      region's own bounds. */
  lemma {:induction false} DefaultOffsetsMap(text: string, spans: seq<Span>, merged: seq<Span>, cfg: Config, out: Rendered)
    requires ValidRegions(merged, |text|) && RenderedAll(text, merged, cfg, out)
    requires cfg.fixedLength.None? && cfg.preserveLength
    requires forall s <- spans :: InSomeRegion(s, merged)
    ensures Ordered(out.entries) && NoDrift(out.entries) && SameBounds(merged, out.entries)
    ensures forall s <- spans :: s.start < s.end ==> exists k :: 0 <= k < |out.entries| && InsideRegion(out.entries, k, s)
  {
    RenderedMapOrdered(text, merged, cfg, out);
    RenderedNoDrift(text, merged, cfg, out);
    MirrorsBounds(merged, cfg, out.entries);
    forall s <- spans | s.start < s.end
      ensures exists k :: 0 <= k < |out.entries| && InsideRegion(out.entries, k, s)
    {
      assert InSomeRegion(s, merged);
      var k :| 0 <= k < |merged| && Within(s, merged[k]);
      assert InsideRegion(out.entries, k, s);
    }
  }

  /** The detection half of `mask`: the recogniser sentence by sentence, then
      the pattern finders, each filtered by the upper-cased targets. */
  method DetectAll(text: string, targets: Option<seq<string>>, d: Detectors) returns (detected: seq<Span>)
    requires DetectorsFit(d, text)
    ensures detected == Detected(text, targets, d)
    ensures forall s <- detected :: InBounds(s, |text|) && s.text == text[s.start..s.end]
  {
    var allow := AllowSet(targets);
    var sents := SentenceSpans(text);
    detected := DetectNer(text, sents, allow, d);
    var found := RegexPii(text, allow, d);
    detected := detected + found;
    DetectedInBounds(text, targets, d);
  }

  /** The masking half of `mask`: merge the detected spans, render the
      merged regions, compute the masked offsets of every detected span (the
      source drops them), and hand back the detected spans unchanged. */
  method MaskSpans(text: string, detected: seq<Span>, replacement: string, preserveLength: bool,
                   fixedLength: Option<int>) returns (r: Result<(string, seq<Span>), MaskError>)
    requires forall s <- detected :: InBounds(s, |text|)
    ensures r.Failure? <==> MaskFails(Config(replacement, preserveLength, fixedLength), detected)
    ensures r.Success? ==> r.value.1 == detected
    ensures r.Success? ==> RenderedFrom(text, detected, Config(replacement, preserveLength, fixedLength), r.value.0)
    ensures r.Success? && fixedLength.None? && preserveLength ==> DefaultLayout(text, detected, replacement, r.value.0)
  {
    var merged := MergeSpans(detected);
    MergedValid(detected, merged, |text|);
    var cfg := Config(replacement, preserveLength, fixedLength);
    var rendered := Render.Render(text, merged, cfg);
    FailsExactly(cfg, detected, merged);
    assert rendered.Failure? <==> MaskFails(cfg, detected);
    if rendered.Failure? {
      return Failure(rendered.error);
    }
    var out := rendered.value;
    assert RenderedAll(text, merged, cfg, Rendered(out.masked, out.entries));
    var withMasked, offsets := AttachMaskedOffsets(|text|, out.entries, detected);
    if fixedLength.None? && preserveLength {
      LayoutOfDetected(text, detected, merged, cfg, out);
      DefaultOffsetsMap(text, detected, merged, cfg, out);
      // The discarded offsets of a non-empty span are its merged region's bounds.
      assert forall j :: 0 <= j < |detected| && detected[j].start < detected[j].end ==>
        exists k :: 0 <= k < |merged| && Within(detected[j], merged[k]) && offsets[j] == (merged[k].start, merged[k].end);
    }
    return Success((out.masked, withMasked));
  }

  /** The replacement token `mask` uses when none is given. */
  const DefaultReplacement: string := "＊"

  /** Under the default arguments of `mask` (token "＊", lengths preserved, no
      fixed length) masking never fails, and the masked text is the text with
      every character some detected span covers turned into "＊". */
  lemma {:induction false} DefaultMaskStars(text: string, spans: seq<Span>, masked: string)
    requires DefaultLayout(text, spans, DefaultReplacement, masked)
    ensures !MaskFails(Config(DefaultReplacement, true, None), spans)
    ensures |masked| == |text|
    ensures forall p :: 0 <= p < |text| ==> masked[p] == if CoveredBy(spans, p) then '＊' else text[p]
  {
    forall p | 0 <= p < |text| && CoveredBy(spans, p) ensures masked[p] == '＊' {
      var s :| s in spans && RunFrom(spans, s.start, p) && Cycled(DefaultReplacement, s.start, p, masked);
    }
  }

  /** Python's `mask`: detect, then mask, with the source's default arguments. */
  method Mask(text: string, d: Detectors, targets: Option<seq<string>> := None, replacement: string := DefaultReplacement,
              preserveLength: bool := true, fixedLength: Option<int> := None)
    returns (r: Result<(string, seq<Span>), MaskError>)
    requires DetectorsFit(d, text)
    ensures r.Failure? <==> MaskFails(Config(replacement, preserveLength, fixedLength), Detected(text, targets, d))
    ensures r.Success? ==> r.value.1 == Detected(text, targets, d)
    ensures r.Success? ==> RenderedFrom(text, r.value.1, Config(replacement, preserveLength, fixedLength), r.value.0)
    ensures r.Success? && fixedLength.None? && preserveLength ==> DefaultLayout(text, r.value.1, replacement, r.value.0)
    ensures replacement == DefaultReplacement && preserveLength && fixedLength.None? ==>
      && r.Success?
      && |r.value.0| == |text|
      && forall p :: 0 <= p < |text| ==> r.value.0[p] == if CoveredBy(r.value.1, p) then '＊' else text[p]
  {
    var detected := DetectAll(text, targets, d);
    r := MaskSpans(text, detected, replacement, preserveLength, fixedLength);
    if replacement == DefaultReplacement && preserveLength && fixedLength.None? {
      assert |DefaultReplacement| == 1;
      assert r.Success?;
      DefaultMaskStars(text, detected, r.value.0);
    }
  }
}
