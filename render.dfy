/** The replacement generator and the renderer: the masked text is built left
    to right from the gaps between merged regions, copied verbatim, and one
    replacement per region; a render map records each region's original
    bounds and the length of its replacement. */
module Render {
  import opened Spans
  import opened Merge

  /** The caller's rendering options. */
  datatype Config = Config(replacement: string, preserveLength: bool, fixedLength: Option<int>)

  /** One record of the render map. */
  datatype RenderEntry = RenderEntry(origStart: int, origEnd: int, renderedLen: int)

  /** The masked text and its render map. */
  datatype Rendered = Rendered(masked: string, entries: seq<RenderEntry>)

  lemma {:induction false} MulAtLeast(m: int, x: int)
    requires m > 0 && x >= 1
    ensures m * x >= m
  {
    if x > 1 {
      MulAtLeast(m, x - 1);
      assert m * x == m * (x - 1) + m;
    }
  }

  /** A position inside the q-th block of m characters is q * m plus its
      remainder by m. */
  lemma {:induction false} ModInBlock(k: int, m: int, q: int)
    requires m > 0 && q >= 0 && m * q <= k < m * q + m
    ensures k % m == k - m * q
  {
    var x := q - k / m;
    assert k == m * (k / m) + k % m;
    assert m * x == m * q - m * (k / m);
    if x >= 1 {
      MulAtLeast(m, x);
    } else if x <= -1 {
      MulAtLeast(m, -x);
    }
  }

  /** `times` copies of token, one after the other. */
  function Repeat(token: string, times: nat): (r: string)
    ensures |r| == |token| * times
    ensures forall k :: 0 <= k < |r| ==> r[k] == token[k % |token|]
  {
    if times == 0 then []
    else
      var prev := Repeat(token, times - 1);
      var r := prev + token;
      assert |r| == |token| * times;
      assert forall k :: |prev| <= k < |r| ==> r[k] == token[k % |token|] by {
        forall k | |prev| <= k < |r| ensures r[k] == token[k % |token|] {
          ModInBlock(k, |token|, times - 1);
        }
      }
      r
  }

  /** token repeated and cut to exactly `length` characters; nothing for a
      length of zero or less. An empty token with a positive length is a
      division by zero in the source and is outside the domain. */
  function RepeatToLength(token: string, length: int): (r: string)
    requires |token| > 0 || length <= 0
    ensures length <= 0 ==> r == []
    ensures length > 0 ==> |r| == length
    ensures forall k :: 0 <= k < |r| ==> r[k] == token[k % |token|]
  {
    if length <= 0 then []
    else
      var times, rem := length / |token|, length % |token|;
      var whole := Repeat(token, times);
      var r := whole + token[..rem];
      assert |whole| == |token| * times;
      assert forall k :: |whole| <= k < |r| ==> r[k] == token[k % |token|] by {
        forall k | |whole| <= k < |r| ensures r[k] == token[k % |token|] {
          ModInBlock(k, |token|, times);
        }
      }
      r
  }

  /** The length the renderer asks RepeatToLength for: fixed_length when given,
      otherwise the region's own length when preserving lengths; None when the
      literal replacement is used as it is. */
  function RequestedLen(cfg: Config, regionLen: int): Option<int>
  {
    match cfg.fixedLength
    case Some(f) => Some(f)
    case None => if cfg.preserveLength then Some(regionLen) else None
  }

  /** Rendering this region divides by the length of an empty replacement. */
  predicate RepeatFails(cfg: Config, regionLen: int)
  {
    |cfg.replacement| == 0 && RequestedLen(cfg, regionLen).Some? && RequestedLen(cfg, regionLen).value > 0
  }

  /** The text a region of the given length is replaced with: its length follows
      the precedence fixed_length, then preserve_length, then the literal
      replacement, and it is made of the replacement token, cycled. */
  function Replacement(cfg: Config, regionLen: int): (r: string)
    requires !RepeatFails(cfg, regionLen)
    ensures cfg.fixedLength.Some? ==>
      |r| == if cfg.fixedLength.value <= 0 then 0 else cfg.fixedLength.value
    ensures cfg.fixedLength.None? && cfg.preserveLength ==>
      |r| == if regionLen <= 0 then 0 else regionLen
    ensures cfg.fixedLength.None? && !cfg.preserveLength ==> r == cfg.replacement
  {
    match RequestedLen(cfg, regionLen)
    case Some(n) => RepeatToLength(cfg.replacement, n)
    case None => cfg.replacement
  }

  /** A replacement is the replacement token, cycled. */
  lemma {:induction false} ReplacementChars(cfg: Config, regionLen: int, q: int)
    requires !RepeatFails(cfg, regionLen)
    requires 0 <= q < |Replacement(cfg, regionLen)|
    ensures Replacement(cfg, regionLen)[q] == cfg.replacement[q % |cfg.replacement|]
  {
  }

  /** What rendering a region adds to the length of the text. */
  function Delta(e: RenderEntry): int
  {
    e.renderedLen - (e.origEnd - e.origStart)
  }

  /** How far the masked text has drifted from the original once the first k
      regions are rendered. */
  function ShiftBefore(entries: seq<RenderEntry>, k: nat): int
    requires k <= |entries|
  {
    if k == 0 then 0 else ShiftBefore(entries, k - 1) + Delta(entries[k - 1])
  }

  /** The original offset where the gap before region k starts. */
  function EndBefore(entries: seq<RenderEntry>, k: nat): int
    requires k <= |entries|
  {
    if k == 0 then 0 else entries[k - 1].origEnd
  }

  /** Where region k's replacement starts in the masked text. */
  function MaskedStart(entries: seq<RenderEntry>, k: nat): int
    requires k < |entries|
  {
    entries[k].origStart + ShiftBefore(entries, k)
  }

  function SumLengths(entries: seq<RenderEntry>): int
  {
    if |entries| == 0 then 0 else SumLengths(entries[..|entries| - 1]) + (entries[|entries| - 1].origEnd - entries[|entries| - 1].origStart)
  }

  function SumRendered(entries: seq<RenderEntry>): int
  {
    if |entries| == 0 then 0 else SumRendered(entries[..|entries| - 1]) + entries[|entries| - 1].renderedLen
  }

  /** The total drift is the rendered lengths minus the region lengths. */
  lemma {:induction false} ShiftIsLengthDifference(entries: seq<RenderEntry>, k: nat)
    requires k <= |entries|
    ensures ShiftBefore(entries, k) == SumRendered(entries[..k]) - SumLengths(entries[..k])
  {
    if k > 0 {
      ShiftIsLengthDifference(entries, k - 1);
      assert entries[..k][..k - 1] == entries[..k - 1];
    }
  }

  /** Extending the map leaves the drift before the existing regions alone. */
  lemma {:induction false} ShiftBeforePrefix(entries: seq<RenderEntry>, longer: seq<RenderEntry>, k: nat)
    requires k <= |entries| <= |longer| && longer[..|entries|] == entries
    ensures ShiftBefore(longer, k) == ShiftBefore(entries, k)
  {
    if k > 0 {
      ShiftBeforePrefix(entries, longer, k - 1);
      assert longer[k - 1] == longer[..|entries|][k - 1];
    }
  }

  /** With every replacement as long as its region there is no drift. */
  lemma {:induction false} ShiftBeforeZero(entries: seq<RenderEntry>, k: nat)
    requires k <= |entries|
    requires forall j :: 0 <= j < |entries| ==> entries[j].renderedLen == entries[j].origEnd - entries[j].origStart
    ensures ShiftBefore(entries, k) == 0
  {
    if k > 0 {
      ShiftBeforeZero(entries, k - 1);
    }
  }

  /** Regions as the merger leaves them: inside the text, in order, and each
      ending strictly before the next one starts. */
  predicate ValidRegions(regions: seq<Span>, n: int)
  {
    && (forall k :: 0 <= k < |regions| ==> 0 <= regions[k].start <= regions[k].end <= n)
    && Separated(regions)
  }

  function RegionLen(s: Span): int
  {
    s.end - s.start
  }

  /** The gap before region k of the map appears in the masked text, copied from
      the original, at its original offset plus the drift before it. */
  predicate GapAt(text: string, masked: string, entries: seq<RenderEntry>, k: nat)
    requires k < |entries|
  {
    var a, b, s := EndBefore(entries, k), entries[k].origStart, ShiftBefore(entries, k);
    && 0 <= a <= b <= |text|
    && 0 <= a + s && b + s <= |masked|
    && masked[a + s..b + s] == text[a..b]
  }

  /** Region k's replacement appears in the masked text at its masked start. */
  predicate ReplacementAt(masked: string, entries: seq<RenderEntry>, k: nat, repl: string)
    requires k < |entries|
  {
    var m := MaskedStart(entries, k);
    0 <= m && m + |repl| <= |masked| && masked[m..m + |repl|] == repl
  }

  /** No region among the first i asks an empty token for a positive length. */
  predicate NoneFail(regions: seq<Span>, cfg: Config, i: nat)
  {
    i <= |regions| && forall k :: 0 <= k < i ==> !RepeatFails(cfg, RegionLen(regions[k]))
  }

  /** The first i map entries record the first i regions and the lengths of
      their replacements. */
  predicate Mirrors(regions: seq<Span>, cfg: Config, entries: seq<RenderEntry>, i: nat)
  {
    && NoneFail(regions, cfg, i)
    && |entries| == i
    && forall k :: 0 <= k < i ==> MirrorAt(regions, cfg, entries, k)
  }

  /** Map entry k records region k and the length of its replacement. */
  predicate MirrorAt(regions: seq<Span>, cfg: Config, entries: seq<RenderEntry>, k: nat)
    requires k < |regions| && k < |entries| && !RepeatFails(cfg, RegionLen(regions[k]))
  {
    entries[k] == RenderEntry(regions[k].start, regions[k].end, |Replacement(cfg, RegionLen(regions[k]))|)
  }

  /** The gaps before the first i regions of the map are in place. */
  predicate GapsPlaced(text: string, masked: string, entries: seq<RenderEntry>, i: nat)
    requires i <= |entries|
  {
    forall k :: 0 <= k < i ==> GapAt(text, masked, entries, k)
  }

  /** The replacements of the first i regions are in place. */
  predicate ReplacementsPlaced(regions: seq<Span>, cfg: Config, masked: string, entries: seq<RenderEntry>, i: nat)
    requires NoneFail(regions, cfg, i) && i <= |entries|
  {
    forall k :: 0 <= k < i ==> RegionReplaced(regions, cfg, masked, entries, k)
  }

  /** Region k's own replacement is in place. */
  predicate RegionReplaced(regions: seq<Span>, cfg: Config, masked: string, entries: seq<RenderEntry>, k: nat)
    requires k < |regions| && k < |entries| && !RepeatFails(cfg, RegionLen(regions[k]))
  {
    ReplacementAt(masked, entries, k, Replacement(cfg, RegionLen(regions[k])))
  }

  /** The first i regions are rendered into masked, with render map entries:
      the entries mirror the regions, the length is the original length up to
      the last region plus the drift, and every gap and every replacement sits
      where the map says. */
  predicate RenderedUpTo(text: string, regions: seq<Span>, cfg: Config, i: nat, masked: string, entries: seq<RenderEntry>)
  {
    && Mirrors(regions, cfg, entries, i)
    && |masked| == EndBefore(entries, i) + ShiftBefore(entries, i)
    && GapsPlaced(text, masked, entries, i)
    && ReplacementsPlaced(regions, cfg, masked, entries, i)
  }

  /** Appending to the masked text and extending the map keep a placed gap or
      replacement in place. */
  lemma {:induction false} KeptOnAppend(text: string, masked: string, extra: string, entries: seq<RenderEntry>, longer: seq<RenderEntry>, k: nat, repl: string)
    requires k < |entries| <= |longer| && longer[..|entries|] == entries
    ensures GapAt(text, masked, entries, k) ==> GapAt(text, masked + extra, longer, k)
    ensures ReplacementAt(masked, entries, k, repl) ==> ReplacementAt(masked + extra, longer, k, repl)
  {
    assert longer[k] == longer[..|entries|][k];
    assert k > 0 ==> longer[k - 1] == longer[..|entries|][k - 1];
    ShiftBeforePrefix(entries, longer, k);
    forall x, y | 0 <= x <= y <= |masked|
      ensures (masked + extra)[x..y] == masked[x..y]
    {
      assert (masked + extra)[..|masked|] == masked;
      assert (masked + extra)[x..y] == (masked + extra)[..|masked|][x..y];
    }
  }

  lemma {:induction false} GapsKept(text: string, masked: string, extra: string, entries: seq<RenderEntry>, longer: seq<RenderEntry>, i: nat)
    requires i <= |entries| <= |longer| && longer[..|entries|] == entries
    requires GapsPlaced(text, masked, entries, i)
    ensures GapsPlaced(text, masked + extra, longer, i)
  {
    forall k | 0 <= k < i
      ensures GapAt(text, masked + extra, longer, k)
    {
      KeptOnAppend(text, masked, extra, entries, longer, k, []);
    }
  }

  lemma {:induction false} ReplacementsKept(regions: seq<Span>, cfg: Config, masked: string, extra: string, entries: seq<RenderEntry>, longer: seq<RenderEntry>, i: nat)
    requires NoneFail(regions, cfg, i)
    requires i <= |entries| <= |longer| && longer[..|entries|] == entries
    requires ReplacementsPlaced(regions, cfg, masked, entries, i)
    ensures ReplacementsPlaced(regions, cfg, masked + extra, longer, i)
  {
    forall k | 0 <= k < i
      ensures RegionReplaced(regions, cfg, masked + extra, longer, k)
    {
      assert RegionReplaced(regions, cfg, masked, entries, k);
      KeptOnAppend(text := [], masked := masked, extra := extra, entries := entries, longer := longer, k := k,
                   repl := Replacement(cfg, RegionLen(regions[k])));
    }
  }

  lemma {:induction false} MirrorsStep(regions: seq<Span>, cfg: Config, entries: seq<RenderEntry>, i: nat)
    requires i < |regions| && Mirrors(regions, cfg, entries, i)
    requires !RepeatFails(cfg, RegionLen(regions[i]))
    ensures Mirrors(regions, cfg, entries + [RenderEntry(regions[i].start, regions[i].end, |Replacement(cfg, RegionLen(regions[i]))|)], i + 1)
  {
    var entries' := entries + [RenderEntry(regions[i].start, regions[i].end, |Replacement(cfg, RegionLen(regions[i]))|)];
    forall k | 0 <= k < i + 1
      ensures MirrorAt(regions, cfg, entries', k)
    {
      if k < i {
        assert MirrorAt(regions, cfg, entries, k);
        assert entries'[k] == entries[k];
      }
    }
  }

  /** The last region of an extended map sits after the existing ones. */
  lemma {:induction false} MapExtended(entries: seq<RenderEntry>, e: RenderEntry)
    ensures (entries + [e])[|entries|] == e
    ensures EndBefore(entries + [e], |entries|) == EndBefore(entries, |entries|)
    ensures ShiftBefore(entries + [e], |entries|) == ShiftBefore(entries, |entries|)
  {
    var entries' := entries + [e];
    assert entries'[..|entries|] == entries;
    ShiftBeforePrefix(entries, entries', |entries|);
    assert |entries| > 0 ==> entries'[|entries| - 1] == entries[|entries| - 1];
  }

  /** The middle and the last piece of a three-piece concatenation. */
  lemma {:induction false} Pieces(x: string, y: string, z: string)
    ensures (x + y + z)[|x|..|x| + |y|] == y
    ensures (x + y + z)[|x| + |y|..|x| + |y| + |z|] == z
  {
  }

  /** The gap appended for a new region lands where the extended map places
      it. */
  lemma {:induction false} NewGapPlaced(text: string, masked: string, gap: string, repl: string, entries: seq<RenderEntry>, e: RenderEntry)
    requires |masked| == EndBefore(entries, |entries|) + ShiftBefore(entries, |entries|)
    requires 0 <= EndBefore(entries, |entries|) <= e.origStart <= |text|
    requires gap == text[EndBefore(entries, |entries|)..e.origStart]
    ensures GapAt(text, masked + gap + repl, entries + [e], |entries|)
  {
    MapExtended(entries, e);
    Pieces(masked, gap, repl);
  }

  /** The replacement appended for a new region lands where the extended map
      places it, and the text is as long as the extended map says. */
  lemma {:induction false} NewReplacementPlaced(text: string, masked: string, gap: string, repl: string, entries: seq<RenderEntry>, e: RenderEntry)
    requires |masked| == EndBefore(entries, |entries|) + ShiftBefore(entries, |entries|)
    requires 0 <= EndBefore(entries, |entries|) <= e.origStart
    requires |gap| == e.origStart - EndBefore(entries, |entries|) && e.renderedLen == |repl|
    ensures ReplacementAt(masked + gap + repl, entries + [e], |entries|, repl)
    ensures |masked + gap + repl| == EndBefore(entries + [e], |entries| + 1) + ShiftBefore(entries + [e], |entries| + 1)
  {
    MapExtended(entries, e);
    Pieces(masked, gap, repl);
  }

  /** One more placed gap extends the placed gaps by one region. */
  lemma {:induction false} GapsExtend(text: string, masked: string, entries: seq<RenderEntry>, i: nat)
    requires i < |entries| && GapsPlaced(text, masked, entries, i) && GapAt(text, masked, entries, i)
    ensures GapsPlaced(text, masked, entries, i + 1)
  {
  }

  /** One more placed replacement extends the placed replacements by one
      region. */
  lemma {:induction false} ReplacementsExtend(regions: seq<Span>, cfg: Config, masked: string, entries: seq<RenderEntry>, i: nat)
    requires i < |entries| && NoneFail(regions, cfg, i + 1)
    requires ReplacementsPlaced(regions, cfg, masked, entries, i)
    requires RegionReplaced(regions, cfg, masked, entries, i)
    ensures ReplacementsPlaced(regions, cfg, masked, entries, i + 1)
  {
  }

  /** The gap before region i starts at or before the region. */
  lemma {:induction false} GapBounds(text: string, regions: seq<Span>, cfg: Config, i: nat, entries: seq<RenderEntry>)
    requires ValidRegions(regions, |text|)
    requires i < |regions| && Mirrors(regions, cfg, entries, i)
    ensures 0 <= EndBefore(entries, i) <= regions[i].start
  {
    if i > 0 {
      assert MirrorAt(regions, cfg, entries, i - 1);
      assert regions[i - 1].end < regions[i].start;
    }
  }

  /** One iteration of the render loop keeps the loop's invariant. */
  lemma {:induction false} RenderStep(text: string, regions: seq<Span>, cfg: Config, i: nat, masked: string, entries: seq<RenderEntry>, gap: string, repl: string)
    requires ValidRegions(regions, |text|)
    requires i < |regions| && RenderedUpTo(text, regions, cfg, i, masked, entries)
    requires !RepeatFails(cfg, RegionLen(regions[i]))
    requires 0 <= EndBefore(entries, i) <= regions[i].start
    requires gap == text[EndBefore(entries, i)..regions[i].start]
    requires repl == Replacement(cfg, RegionLen(regions[i]))
    ensures RenderedUpTo(text, regions, cfg, i + 1, masked + gap + repl,
                         entries + [RenderEntry(regions[i].start, regions[i].end, |repl|)])
  {
    var sp := regions[i];
    var e := RenderEntry(sp.start, sp.end, |repl|);
    var entries' := entries + [e];
    assert entries'[..i] == entries;
    assert masked + gap + repl == masked + (gap + repl);
    MirrorsStep(regions, cfg, entries, i);
    NewGapPlaced(text, masked, gap, repl, entries, e);
    NewReplacementPlaced(text, masked, gap, repl, entries, e);
    GapsKept(text, masked, gap + repl, entries, entries', i);
    GapsExtend(text, masked + gap + repl, entries', i);
    ReplacementsKept(regions, cfg, masked, gap + repl, entries, entries', i);
    ReplacementsExtend(regions, cfg, masked + gap + repl, entries', i);
  }

  /** The finished render: the map mirrors the regions, the masked text is as
      long as the original plus the total drift, every gap and replacement sits
      where the map says, and the text after the last region closes it. */
  predicate RenderedAll(text: string, regions: seq<Span>, cfg: Config, out: Rendered)
  {
    var entries, masked, n := out.entries, out.masked, |regions|;
    && Mirrors(regions, cfg, entries, n)
    && GapsPlaced(text, masked, entries, n)
    && ReplacementsPlaced(regions, cfg, masked, entries, n)
    && TailPlaced(text, masked, entries)
  }

  /** The masked text is as long as the original plus the total drift, and
      ends with the text after the last region of the map. */
  predicate TailPlaced(text: string, masked: string, entries: seq<RenderEntry>)
  {
    var last, shift := EndBefore(entries, |entries|), ShiftBefore(entries, |entries|);
    && 0 <= last <= |text|
    && 0 <= last + shift
    && |masked| == |text| + shift
    && masked[last + shift..] == text[last..]
  }

  /** Copying the text after the last region finishes the render. */
  lemma {:induction false} RenderTail(text: string, regions: seq<Span>, cfg: Config, masked: string, entries: seq<RenderEntry>)
    requires ValidRegions(regions, |text|)
    requires RenderedUpTo(text, regions, cfg, |regions|, masked, entries)
    ensures 0 <= EndBefore(entries, |regions|) <= |text|
    ensures RenderedAll(text, regions, cfg, Rendered(masked + text[EndBefore(entries, |regions|)..], entries))
  {
    var n := |regions|;
    var last := EndBefore(entries, n);
    assert 0 <= last <= |text| by {
      if n > 0 {
        assert MirrorAt(regions, cfg, entries, n - 1);
      }
    }
    var tail := text[last..];
    GapsKept(text, masked, tail, entries, entries, n);
    ReplacementsKept(regions, cfg, masked, tail, entries, entries, n);
    assert (masked + tail)[|masked|..] == tail;
  }

  /** The length law of a finished render: the original length, less the
      regions' lengths, plus their replacements' lengths. */
  lemma {:induction false} RenderedLength(text: string, regions: seq<Span>, cfg: Config, out: Rendered)
    requires RenderedAll(text, regions, cfg, out)
    ensures |out.masked| == |text| - SumLengths(out.entries) + SumRendered(out.entries)
  {
    var entries := out.entries;
    ShiftIsLengthDifference(entries, |entries|);
    assert entries[..|entries|] == entries;
  }

  /** Some region asks an empty token for a positive length. */
  predicate SomeFails(regions: seq<Span>, cfg: Config)
  {
    exists k :: 0 <= k < |regions| && RepeatFails(cfg, RegionLen(regions[k]))
  }

  /** The render loop: copy the gap before each region, append its
      replacement, record (start, end, replacement length); then copy the tail.
      A positive length requested from an empty replacement token raises. */
  method Render(text: string, regions: seq<Span>, cfg: Config) returns (r: Result<Rendered, MaskError>)
    requires ValidRegions(regions, |text|)
    ensures r.Failure? <==> SomeFails(regions, cfg)
    ensures r.Success? ==> RenderedAll(text, regions, cfg, r.value)
  {
    var masked: string := [];
    var entries: seq<RenderEntry> := [];
    var last := 0;
    for i := 0 to |regions|
      invariant RenderedUpTo(text, regions, cfg, i, masked, entries)
      invariant last == EndBefore(entries, i)
    {
      var sp := regions[i];
      GapBounds(text, regions, cfg, i, entries);
      ghost var before := masked;
      if last < sp.start {
        masked := masked + text[last..sp.start];
      } else {
        assert masked + text[last..sp.start] == masked;
      }
      assert masked == before + text[last..sp.start];
      var spanLen := sp.end - sp.start;
      var repl: string;
      if cfg.fixedLength.Some? {
        if |cfg.replacement| == 0 && cfg.fixedLength.value > 0 {
          assert RepeatFails(cfg, RegionLen(regions[i]));
          return Failure(DivisionByZero);
        }
        repl := RepeatToLength(cfg.replacement, cfg.fixedLength.value);
      } else if cfg.preserveLength {
        if |cfg.replacement| == 0 && spanLen > 0 {
          assert RepeatFails(cfg, RegionLen(regions[i]));
          return Failure(DivisionByZero);
        }
        repl := RepeatToLength(cfg.replacement, spanLen);
      } else {
        repl := cfg.replacement;
      }
      assert repl == Replacement(cfg, RegionLen(sp));
      RenderStep(text, regions, cfg, i, before, entries, text[last..sp.start], repl);
      masked := masked + repl;
      entries := entries + [RenderEntry(sp.start, sp.end, |repl|)];
      last := sp.end;
    }
    RenderTail(text, regions, cfg, masked, entries);
    assert NoneFail(regions, cfg, |regions|);
    if last < |text| {
      masked := masked + text[last..];
    } else {
      assert masked + text[last..] == masked;
    }
    return Success(Rendered(masked, entries));
  }

  /** No region covers position p. */
  predicate Uncovered(regions: seq<Span>, p: int)
  {
    forall k :: 0 <= k < |regions| ==> !Covers(regions[k], p)
  }

  /** With lengths preserved and no fixed length, every replacement is as long
      as its region, so the map never drifts. */
  lemma {:induction false} PreservedNoDrift(regions: seq<Span>, cfg: Config, entries: seq<RenderEntry>)
    requires Mirrors(regions, cfg, entries, |regions|)
    requires forall k :: 0 <= k < |regions| ==> regions[k].start <= regions[k].end
    requires cfg.fixedLength.None? && cfg.preserveLength
    ensures forall k :: 0 <= k <= |entries| ==> ShiftBefore(entries, k) == 0
  {
    forall j | 0 <= j < |entries|
      ensures entries[j].renderedLen == entries[j].origEnd - entries[j].origStart
    {
      assert MirrorAt(regions, cfg, entries, j);
    }
    forall k | 0 <= k <= |entries|
      ensures ShiftBefore(entries, k) == 0
    {
      ShiftBeforeZero(entries, k);
    }
  }

  /** The map records each region's bounds. */
  predicate SameBounds(regions: seq<Span>, entries: seq<RenderEntry>)
  {
    |entries| == |regions| &&
    forall k :: 0 <= k < |regions| ==> entries[k].origStart == regions[k].start && entries[k].origEnd == regions[k].end
  }

  lemma {:induction false} MirrorsBounds(regions: seq<Span>, cfg: Config, entries: seq<RenderEntry>)
    requires Mirrors(regions, cfg, entries, |regions|)
    ensures SameBounds(regions, entries)
  {
    forall k | 0 <= k < |regions|
      ensures entries[k].origStart == regions[k].start && entries[k].origEnd == regions[k].end
    {
      assert MirrorAt(regions, cfg, entries, k);
    }
  }

  /** An uncovered position at or after the end of region j - 1 lies in the
      gap before some later region or after the last one. */
  lemma {:induction false} GapHolding(regions: seq<Span>, entries: seq<RenderEntry>, p: int, j: nat)
    requires SameBounds(regions, entries)
    requires j <= |regions| && EndBefore(entries, j) <= p && Uncovered(regions, p)
    ensures EndBefore(entries, |regions|) <= p ||
            exists k :: j <= k < |regions| && EndBefore(entries, k) <= p < entries[k].origStart
    decreases |regions| - j
  {
    if j < |regions| && regions[j].start <= p {
      assert !Covers(regions[j], p);
      GapHolding(regions, entries, p, j + 1);
    }
  }

  /** Without drift, an uncovered character keeps its place. */
  lemma {:induction false} UncoveredKept(text: string, regions: seq<Span>, masked: string, entries: seq<RenderEntry>, p: int)
    requires SameBounds(regions, entries)
    requires GapsPlaced(text, masked, entries, |entries|) && TailPlaced(text, masked, entries)
    requires forall k :: 0 <= k <= |entries| ==> ShiftBefore(entries, k) == 0
    requires 0 <= p < |text| && Uncovered(regions, p)
    ensures p < |masked| && masked[p] == text[p]
  {
    var n := |regions|;
    GapHolding(regions, entries, p, 0);
    assert ShiftBefore(entries, n) == 0;
    if EndBefore(entries, n) <= p {
      var a := EndBefore(entries, n);
      assert masked[a..][p - a] == text[a..][p - a];
    } else {
      var k :| 0 <= k < n && EndBefore(entries, k) <= p < entries[k].origStart;
      assert GapAt(text, masked, entries, k);
      assert ShiftBefore(entries, k) == 0;
      var a, b := EndBefore(entries, k), entries[k].origStart;
      assert masked[a..b][p - a] == text[a..b][p - a];
    }
  }

  /** Without drift, a covered character holds the replacement token, cycled
      from the region's start. */
  lemma {:induction false} CoveredReplaced(regions: seq<Span>, cfg: Config, masked: string, entries: seq<RenderEntry>, k: nat, p: int)
    requires Mirrors(regions, cfg, entries, |regions|) && ReplacementsPlaced(regions, cfg, masked, entries, |regions|)
    requires k < |regions| && ShiftBefore(entries, k) == 0
    requires cfg.fixedLength.None? && cfg.preserveLength
    requires Covers(regions[k], p)
    ensures 0 <= p < |masked| && |cfg.replacement| > 0
    ensures masked[p] == cfg.replacement[(p - regions[k].start) % |cfg.replacement|]
  {
    var repl := Replacement(cfg, RegionLen(regions[k]));
    assert RegionReplaced(regions, cfg, masked, entries, k);
    assert MirrorAt(regions, cfg, entries, k);
    var m := MaskedStart(entries, k);
    assert m == regions[k].start;
    assert |repl| == regions[k].end - regions[k].start;
    assert masked[m..m + |repl|][p - m] == repl[p - m];
    ReplacementChars(cfg, RegionLen(regions[k]), p - m);
  }

  /** Position p of masked holds the token, cycled from offset start. */
  predicate Cycled(token: string, start: int, p: int, masked: string)
  {
    0 <= start <= p < |masked| && |token| > 0 && masked[p] == token[(p - start) % |token|]
  }

  /** With the default options (lengths preserved, no fixed length) the masked
      text is as long as the original, keeps every uncovered character where
      it was, and holds the cycled replacement token over every region. */
  lemma {:induction false} PreservedLayout(text: string, regions: seq<Span>, cfg: Config, out: Rendered)
    requires ValidRegions(regions, |text|) && RenderedAll(text, regions, cfg, out)
    requires cfg.fixedLength.None? && cfg.preserveLength
    ensures |out.masked| == |text|
    ensures forall p :: 0 <= p < |text| && Uncovered(regions, p) ==> out.masked[p] == text[p]
    ensures forall k, p :: 0 <= k < |regions| && Covers(regions[k], p) ==>
      Cycled(cfg.replacement, regions[k].start, p, out.masked)
  {
    PreservedNoDrift(regions, cfg, out.entries);
    MirrorsBounds(regions, cfg, out.entries);
    forall p | 0 <= p < |text| && Uncovered(regions, p)
      ensures out.masked[p] == text[p]
    {
      UncoveredKept(text, regions, out.masked, out.entries, p);
    }
    forall k, p | 0 <= k < |regions| && Covers(regions[k], p)
      ensures Cycled(cfg.replacement, regions[k].start, p, out.masked)
    {
      CoveredReplaced(regions, cfg, out.masked, out.entries, k, p);
    }
  }
}
