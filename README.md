# PersonalMasker masking core in Dafny

This project models the masking service of PersonalMasker (`Masker.mask` in
`backend/services/masker.py`) and proves properties of it. `mask` takes a
text, a list of target labels and the rendering options. It returns the masked
text together with the spans it detected. It works in these stages:

1. The rule-based sentence splitter (`_sentence_spans`) cuts the text into
   sentences. A sentence ends just after a terminator in `。．！？!?` and
   takes any closing brackets or quotes that follow it.
2. The named-entity recogniser runs on each sentence. Its raw labels are
   normalised by `_map_label`, and only the hits whose label is among the
   upper-cased targets are kept, shifted to whole-text offsets.
3. The e-mail, URL and phone pattern finders (`_regex_pii`) add their hits
   after the recogniser's.
4. `_merge_spans` collapses overlapping and touching spans into separated
   regions.
5. The render loop copies the gaps between the regions verbatim and replaces
   each region by the replacement token. The token is cycled to a fixed
   length, to the region's length, or used as it is. The loop records
   `(orig_start, orig_end, rendered_len)` per region.
6. The nested `calc_masked_offsets` walks that record to translate an
   original span into masked-text offsets. `mask` computes these offsets for
   every detected span and then discards them.

Modules, one file each:

- `Spans` (`spans.dfy`): the span record, `Option`, `Result` and the single
  error the core can raise.
- `Segmenter` (`segmenter.dfy`): the sentence splitter. It is a loop method
  proved equal to a recursive specification, and that specification is proved
  to tile the text.
- `Labels` (`labels.dfy`): upper-casing and the alias table.
- `Detect` (`detect.dfy`): the allow set, the per-sentence entity loop, the
  sentence loop and `_regex_pii`. The recogniser and the three finders are
  parameters of type `Detectors`.
- `Merge` (`merge.dfy`): the key sort and the single sweep. The sweep is a
  loop method with ghost bookkeeping of which region absorbed which span.
- `Render` (`render.dfy`): `_repeat_to_length`, the replacement precedence and
  the render loop. The loop is proved against the predicate `RenderedAll`,
  which places every gap and every replacement in the masked text.
- `Offsets` (`offsets.dfy`): `calc_masked_offsets` as a method with its
  two-cursor loop.
- `Masker` (`masker.dfy`): `mask` itself, split into the detection half and
  the masking half.

The renderer's `divmod` by the length of an empty replacement token raises
`ZeroDivisionError` in the source. Here it is the `Failure(DivisionByZero)`
result, and `Mask` states exactly when it happens.

## Model

| member | source | states |
|---|---|---|
| Segmenter.CharClasses | backend/services/masker.py:39-40 | the terminator and closer tests are exactly membership in the two character sets |
| Segmenter.FirstTerminator | backend/services/masker.py:59 | the result is the first terminator at or after the cursor, or None when none remains |
| Segmenter.SkipClosers | backend/services/masker.py:65-67 | the result ends the maximal run of closers starting at j |
| Segmenter.SentenceEnd | backend/services/masker.py:59-67 | a sentence ends strictly after its start and within the text |
| Segmenter.SegmentsTile | backend/services/masker.py:54-72 | the sentences tile the text in order: the first starts at 0, each starts where the previous ended, each is non-empty, the last ends at the text's length, each ends where the boundary rule says; the empty text gives exactly [(0, 0)] |
| Segmenter.SegmentsReassemble | backend/services/masker.py:54-72 | concatenating the sentences gives back the text |
| Segmenter.SentenceSpans | backend/services/masker.py:48-72 | the splitter loop returns exactly the specified segmentation, which tiles the text |
| Labels.Upper | backend/services/masker.py:77 | upper-casing keeps the length and maps every character through UpperChar |
| Labels.UpperIdempotent | backend/services/masker.py:77 | upper-casing twice is upper-casing once |
| Labels.MapLabel | backend/services/masker.py:74-90 | `_map_label` is a look-up of the upper-cased label in the alias table, and None outside it |
| Labels.MapLabelCaseInsensitive | backend/services/masker.py:77 | a label and its upper-cased form map alike |
| Labels.MapLabelRange | backend/services/masker.py:78-89 | every mapped label is one of the six default labels |
| Detect.AllowSet | backend/services/masker.py:145-153 | without targets (absent or empty) exactly the six default labels are allowed; otherwise exactly the targets are allowed, each in its upper-cased form, and no other label; every allowed label is already upper case, so a label is found however the caller spelled it |
| Detect.SentenceHitsMembers | backend/services/masker.py:162-167 | a span is among a sentence's hits exactly when a kept entity, shifted by the sentence start, gives it |
| Detect.SentenceDetect | backend/services/masker.py:162-167 | the entity loop returns the kept, shifted hits of the sentence in entity order |
| Detect.NerSpansMembers | backend/services/masker.py:158-167 | a span is a recogniser hit exactly when it is a hit of one of the sentences |
| Detect.NerSpansSound | backend/services/masker.py:159-167 | every recogniser hit lies in the text, records the text it covers, and carries an allowed default label |
| Detect.DetectNer | backend/services/masker.py:158-167 | the sentence loop returns the hits of all sentences, sentence by sentence |
| Detect.Tagged | backend/services/masker.py:96-103 | one finder contributes one span per match, in match order, with the match's offsets and text |
| Detect.AppendMatches | backend/services/masker.py:96-103 | one `finditer` loop appends exactly the finder's tagged matches |
| Detect.RegexSpansSound | backend/services/masker.py:92-104 | every pattern hit lies in the text, records its text, has an allowed pattern label, and e-mail hits precede URL hits, which precede phone hits |
| Detect.RegexSpansComplete | backend/services/masker.py:92-104 | every match of an allowed finder is reported |
| Detect.RegexPii | backend/services/masker.py:92-104 | `_regex_pii` returns exactly the specified pattern hits |
| Merge.SortSpans | backend/services/masker.py:111 | the sort is a permutation of its input, ordered by (start, -end) |
| Merge.Absorb | backend/services/masker.py:115-116 | absorbing keeps the region's start and label and makes its end the larger of the two ends |
| Merge.SweepAbsorb | backend/services/masker.py:115-116 | a span starting at or before the open region's end joins it, and the sweep invariant is kept |
| Merge.SweepStart | backend/services/masker.py:117-119 | a span starting after the open region's end closes it and opens its own, and the sweep invariant is kept |
| Merge.MergeSpans | backend/services/masker.py:106-121 | the result is empty exactly for empty input; regions are separated (each ends strictly before the next starts); every input span lies inside a region; each region starts where an input span starts and ends where one ends; every position a region covers is covered by an input span |
| Render.Repeat | backend/services/masker.py:129 | `token * times` has times copies of the token, cycled character by character |
| Render.RepeatToLength | backend/services/masker.py:123-129 | the result is empty for a length of zero or less, otherwise exactly that long, and character k is the token's character k modulo its length |
| Render.Replacement | backend/services/masker.py:183-188 | the replacement length follows the precedence fixed_length (at least 0), then the region length, then the literal token |
| Render.ReplacementChars | backend/services/masker.py:183-188 | every replacement is the token, cycled |
| Render.ShiftIsLengthDifference | backend/services/masker.py:190 | the drift after k regions is their rendered lengths minus their original lengths |
| Render.Render | backend/services/masker.py:176-195 | rendering fails exactly when some region asks an empty token for a positive length; otherwise the map records every region and its replacement length, every gap is copied verbatim at its drifted offset, every replacement sits where the map says, and the text after the last region closes the result |
| Render.RenderedLength | backend/services/masker.py:176-195 | the masked length is the original length, less the region lengths, plus the rendered lengths |
| Render.PreservedNoDrift | backend/services/masker.py:185-190 | with lengths preserved and no fixed length, the map never drifts |
| Render.PreservedLayout | backend/services/masker.py:176-195 | with lengths preserved and no fixed length, the masked text is as long as the original, keeps every uncovered character, and holds the token cycled from each region's start over that region |
| Offsets.RenderedMapOrdered | backend/services/masker.py:190 | the map the renderer records is in order |
| Offsets.RenderedNoDrift | backend/services/masker.py:185-190 | with lengths preserved and no fixed length, every entry of the map the renderer records is as long as its region |
| Offsets.StartStep | backend/services/masker.py:205-215 | one more region resolves an unresolved start in its gap or region and never overwrites a resolved one |
| Offsets.EndStep | backend/services/masker.py:209-217 | the same for the end, whose pieces are closed on the right |
| Offsets.WalkMap | backend/services/masker.py:199-219 | after the walk both cursors sit after the last region, and start and end are resolved exactly where a gap or region holds them |
| Offsets.CalcMaskedOffsets | backend/services/masker.py:198-231 | a start in a region maps to the region's masked start, a start in a gap to its drifted offset, a start after the map to its drifted offset when the trailing gap exists, else to itself; the same for the end, which in a region maps to the end of its replacement and otherwise falls back to the start; without drift a span inside one region maps to that region's bounds |
| Offsets.AttachMaskedOffsets | backend/services/masker.py:233-237 | the loop returns the detected spans unchanged, and for an ordered map without drift the offsets it computes for a span inside a region are that region's bounds |
| Masker.DetectedInBounds | backend/services/masker.py:155-170 | every detected span lies in the text and records the text it covers |
| Masker.DetectAll | backend/services/masker.py:145-170 | detection returns the recogniser's hits sentence by sentence, then the pattern hits, all inside the text |
| Masker.FailsExactly | backend/services/masker.py:183-186 | rendering the merged regions fails exactly when the replacement is empty and either a positive fixed length is asked for and something was detected, or no fixed length is given, lengths are preserved and a non-empty span was detected (a fixed length of 0 never fails) |
| Masker.RegionsApart | backend/services/masker.py:113-121 | any earlier merged region ends strictly before a later one starts |
| Masker.RegionStartsRun | backend/services/masker.py:106-121 | no detected span covers the position just before a merged region |
| Masker.LayoutOfDetected | backend/services/masker.py:173-195 | with lengths preserved and no fixed length, the masked text is as long as the text, a position no detected span covers keeps its character, and a covered one holds the token cycled from the start of the maximal run of covered positions holding it, where a detected span starts |
| Masker.DefaultOffsetsMap | backend/services/masker.py:185-237 | with lengths preserved and no fixed length, the map is in order and without drift, and every non-empty detected span lies inside the map entry of its merged region |
| Masker.MaskSpans | backend/services/masker.py:172-239 | masking fails exactly as FailsExactly says; otherwise it returns the detected spans unchanged and, for every option, the rendering of separated regions that merge the detected spans (each holds the spans it absorbed, starts and ends where spans do, covers only covered positions); with lengths preserved and no fixed length, the text is laid out as LayoutOfDetected says |
| Masker.DefaultMaskStars | backend/services/masker.py:134-137 | with the default token "＊", preserved lengths and no fixed length, masking never fails and turns exactly the covered characters into "＊" |
| Masker.Mask | backend/services/masker.py:131-239 | `mask` takes the source's default arguments (no targets, token "＊", lengths preserved, no fixed length); it returns the detected spans in detection order, fails exactly when rendering divides by an empty token, otherwise renders the merged detected spans under the given options (fixed length, preserved length or literal token); with preserved lengths and no fixed length it masks exactly the detected positions, each run with the token cycled from its start, and keeps every other character; with the default arguments it never fails and every covered character becomes "＊" |

## Left out

- The named-entity recogniser (spaCy/GiNZA loading and inference) and the three regular expressions are parameters of `Detectors`. Their matching rules are not modelled.
- Masker.Mask: requires the recogniser to report entities inside the sentence it was given and the finders to report matches inside the text (`DetectorsFit`; `SoundDetectorsFit` derives it from detectors sound on every string). Python's clamping of out-of-range slices is not modelled.
- Masker.MaskSpans: requires every detected span to lie in the text, which every span `mask` detects does (`DetectedInBounds`).
- Labels.Upper: upper-cases ASCII letters only. Python's full Unicode `str.upper` (including changes of length) is not modelled.
- Merge.MergeSpans: does not state which label a merged region keeps, because rendering never reads it.
- Merge.MergeSpans: states that regions are well-formed (start no later than end) only when every input span is; the source does not check this either.
- The in-place `cur.end` update of `_merge_spans` acts on copies of the detected spans. The model uses values, so the returned spans are unchanged by construction and aliasing is not modelled.
- Offsets.CalcMaskedOffsets: states its results only for a map in order. Every map the renderer records is in order (`RenderedMapOrdered`).
- The masked offsets that `mask` computes for each detected span are discarded, as in the source; the returned spans carry only original offsets.
- Masker.MaskSpans: states the masked text position by position, against the detected spans, only when lengths are preserved and no fixed length is given. For the other options it states the rendering of the merged regions (`RenderedFrom`), whose layout `Render.Render` and `Render.RenderedLength` state.
