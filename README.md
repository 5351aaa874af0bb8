# ferrules, modelled in Dafny

ferrules turns PDF pages into structured blocks. The model covers the logic that
runs between the external engines in both generations of the engine:

- the current one, under `ferrules-core/`, with its service (`ferrules-api/`)
  and command line (`ferrules-cli/`);
- the older one, under `src/`;
- the first prototype, `src/lib.rs` and `src/parse.rs`.

The model works as the code does in five stages:

1. **Text assembly.** Characters reported by the PDF library are grouped into
   spans, and spans into lines, by a left fold that extends the last element
   or starts a new one (`spans.dfy`, `lines.dfy`). The current engine runs each
   piece of text through a cleanup (`text_cleanup.dfy`):
   - a repair of UTF-8 sequences that were mis-decoded byte by byte, with
     RFC 3629 section 4 as the reference grammar (`utf8.dfy`);
   - a ligature guess;
   - a control-character filter.
2. **Layout.** Detector predictions are filtered, clamped and rescaled, then
   pruned by greedy non-maximum suppression (NMS). The model has three NMS
   variants:
   - the current engine's, which ignores labels and uses relaxed IoU, in place;
   - the older engine's, which is label-aware;
   - the index-based one with the "+1 pixel" area convention.

   Files: `nms.dfy`, `layout.dfy`, `legacy_layout.dfy`, `index_nms.dfy`,
   `sorting.dfy`.
3. **Page assembly.** The OCR decision and the choice of line set
   (`page.dfy`, `vision.dfy`). Lines are merged into layout regions, and
   unclaimed regions are inserted by proximity (`merge.dfy`). A peek-ahead
   pass turns elements into blocks (`block_builder.dfy`, `blocks.dfy`).
   Title levels come from height clustering (`titles.dfy`). In this version
   those levels never reach the blocks: `merge_elements_into_blocks`
   (`ferrules-core/src/parse/merge.rs:193`) takes no level map and gives every
   title level 0 (`merge.rs:398-411`), and `BlockBuilder` does the same. The
   debug drawing at `ferrules-core/src/parse/page.rs:202` still passes it a
   second, empty map.
4. **Older engine.** Its block kinds, line pushing and Markdown rendering
   (`legacy_entities.dfy`).
5. **Utilities.** In `page_range.dfy`, `decimal.dfy`, `providers.dfy`,
   `jobs.dfy` and `doc_utils.dfy`:
   - the page-range parser;
   - the execution-provider list;
   - the document-name sanitizer and the result directory name;
   - figure cropping and numbering;
   - the service's job registry.

Coordinates are `real`: the engine's `f32` values are only added, multiplied,
divided, compared and clamped.

Where a piece of code exists in several generations, one Dafny definition
carries a `Generation` parameter (`Core`, `Entities`, `Lib`) selecting the
behaviour of each copy. The page-range parser is identical in
`ferrules-api/src/main.rs:535-557`, `ferrules-cli/src/main.rs:148-170` and
`src/main.rs:105-127`, and is modelled once. The provider list is identical in
`ferrules-api/src/main.rs:123-139` and `ferrules-cli/src/main.rs:194-210`. NMS
is one generic greedy walk (`Nms`), instantiated with each generation's
suppression test. The page steps `page_needs_ocr`, `build_page_elements` and
`parse_page_text` of `src/parse/page.rs:32-95` have the same logic as the
current engine's copy in `ferrules-core/src/parse/page.rs`, and `page.dfy`
models both.

External engines become parameters or oracles:

- the layout detector's output tensor is a sequence of predictions;
- the OCR result is an optional sequence of recognised regions;
- the k-means clustering gives centroids and assignments;
- the regex-based ligature fix and the older engines' text fixer are
  `string -> string` functions;
- the alphanumeric test of the sanitizer is a `char -> bool` function that
  never accepts whitespace.

Two places where the code and its own documentation or tests disagree follow
the code:

- `merge_elements_into_blocks` turns each Text element into its own block.
  The adjacent-text merge at `ferrules-core/src/parse/merge.rs:209-221` is
  commented out, although the test at lines 491-520 expects it.
- In the older engine, `Block::from_layout_block` reads the id of a layout
  box, but the layout box of `src/layout/model.rs` used here has no id. The
  id is therefore a parameter of `LegacyEntities.FromLayoutBlock`.

## Model

| member | source | states |
|---|---|---|
| Geometry.Area | ferrules-core/src/entities.rs:307-309 | a box with ordered corners has non-negative area |
| Geometry.FromPdfRect | ferrules-core/src/entities.rs:273-288 | the PDF rectangle keeps its width and height; its vertical position is mirrored against the page height (y0 = H - top, y1 = H - bottom); ordered input gives an ordered box |
| Geometry.Center | ferrules-core/src/entities.rs:291-296 | the centre is the midpoint of both extents |
| Geometry.Merge | ferrules-core/src/entities.rs:316-321 | the merged box contains both boxes and lies inside every box that contains both: it is the least covering box |
| Geometry.OverlapX | ferrules-core/src/entities.rs:323-328 | the horizontal overlap is non-negative, is positive exactly when the open extents meet, and is at most either width |
| Geometry.OverlapY | ferrules-core/src/entities.rs:330-335 | the vertical overlap is non-negative, is positive exactly when the open extents meet, and is at most either height |
| Geometry.Intersection | ferrules-core/src/entities.rs:355-357 | the intersection is never negative |
| Geometry.Distance | ferrules-core/src/entities.rs:365-370 | the weighted squared centre distance is non-negative for non-negative weights, and 0 for boxes with the same centre |
| Geometry.IntersectionAtMostAreas | ferrules-core/src/entities.rs:355-357 | the intersection of ordered boxes is at most each area, so at most the smaller one |
| Geometry.IntersectionSymmetric | ferrules-core/src/entities.rs:355-362 | intersection and union do not depend on argument order |
| Geometry.DisjointIntersectionZero | ferrules-core/src/entities.rs:323-357 | boxes that are apart or touch only along an edge have intersection 0 |
| Geometry.SelfIntersection | src/entities.rs:87-95 | a box intersects itself in its whole area, and its union with itself is that area |
| Geometry.ContainedIntersection | ferrules-core/src/entities.rs:338-357 | a box inside another intersects it in its own area, which is at most the outer area |
| Geometry.UnionBounds | ferrules-core/src/entities.rs:360-362 | the union is at least each area, and positive when either area is |
| Geometry.IouRange | ferrules-core/src/entities.rs:350-352 | IoU of ordered boxes lies in [0, 1] and is 1 for a box against itself |
| Geometry.RelaxedIouRange | ferrules-core/src/entities.rs:343-347 | relaxed IoU lies in [0, 1] and is exactly 1 when one box contains the other |
| Geometry.DistanceSymmetric | src/entities.rs:97-102 | the weighted distance is symmetric |
| Geometry.MergeProperties | src/lib.rs:53-59 | merging is commutative, and merging in a contained box changes nothing |
| Utf8.Decode | ferrules-core/src/entities.rs:34-74 | whatever the byte test accepts as one UTF-8 character is a Unicode scalar value |
| Utf8.Encode | ferrules-core/src/entities.rs:34-74 | a scalar value encodes to 1 to 4 bytes |
| Utf8.DecodeEncode | ferrules-core/src/entities.rs:34-74 | decoding the encoding of a scalar value gives it back |
| Utf8.EncodeDecode | ferrules-core/src/entities.rs:34-74 | every accepted byte sequence is the shortest encoding of its value: overlong forms are refused |
| TextCleanup.Repair | ferrules-core/src/entities.rs:29-80 | the repaired text is never longer than the input |
| TextCleanup.Step4 | ferrules-core/src/entities.rs:34-55 | the loop's 4-byte test (lead U+00F0, three U+0080-U+00BF characters, valid UTF-8) is the definition's, and on success consumes four characters |
| TextCleanup.Step3 | ferrules-core/src/entities.rs:57-75 | failing that, the 3-byte test (lead U+00E2, two continuation characters) is the definition's, and consumes three |
| TextCleanup.Step1 | ferrules-core/src/entities.rs:77-79 | failing both, the character is copied and one is consumed |
| TextCleanup.RepairStep | ferrules-core/src/entities.rs:29-80 | one loop turn emits the character the definition emits first, consuming 1 to 4 inputs |
| TextCleanup.RepairUtf8 | ferrules-core/src/entities.rs:20-80 | the index-driven loop computes the recursive repair |
| TextCleanup.Repaired3 | ferrules-core/src/entities.rs:57-75 | a repaired 3-byte sequence yields a character of U+2000-U+2FFF whose mis-decoding is exactly the three characters |
| TextCleanup.Repaired4 | ferrules-core/src/entities.rs:34-55 | a repaired 4-byte sequence yields a character of U+10000-U+3FFFF whose mis-decoding is exactly the four characters |
| TextCleanup.CorruptRepair | ferrules-core/src/entities.rs:29-80 | on text with no character of those ranges, re-corrupting the repair gives the input: nothing else is changed, and copies are in order |
| TextCleanup.RepairExpand | ferrules-core/src/entities.rs:29-80 | repair undoes the mis-decoding of one character at the front |
| TextCleanup.RepairCorrupt | ferrules-core/src/entities.rs:29-80 | on text free of U+00E2 and U+00F0, repairing the mis-decoded text gives the original text |
| TextCleanup.RepairWithoutLeads | ferrules-core/src/entities.rs:29-80 | text without U+00E2 and U+00F0 is returned unchanged |
| TextCleanup.RemoveControl | ferrules-core/src/entities.rs:250-262 | the output keeps no code point below U+0020 other than tab, LF and CR, and is no longer than the input |
| TextCleanup.RemoveControlAppend | ferrules-core/src/entities.rs:250-262 | the filter distributes over concatenation: it keeps the kept characters in order |
| TextCleanup.RemoveControlOfPrintable | ferrules-core/src/entities.rs:250-262 | text without control characters is unchanged |
| TextCleanup.RemoveControlIdempotent | ferrules-core/src/entities.rs:250-262 | filtering twice is filtering once |
| TextCleanup.RemoveControlCount | ferrules-core/src/entities.rs:250-262 | the output is, as a multiset, the input minus exactly its control characters |
| TextCleanup.DetermineLigature | ferrules-core/src/entities.rs:181-241 | the guess is always "fl", "ff" or "fi" |
| TextCleanup.LigatureBeforeOw | ferrules-core/src/entities.rs:185-191 | the guess is "fl" whenever the suffix is "ow" or "ows" |
| TextCleanup.LigatureFlNeedsOw | ferrules-core/src/entities.rs:185-230 | "fl" is only guessed when the suffix starts with "ow" |
| TextCleanup.LigatureFfCases | ferrules-core/src/entities.rs:193-240 | "ff" is only guessed before "ective", "ice", "erent" or "ing", or for the symbols & and " |
| TextCleanup.FixText | ferrules-core/src/entities.rs:20-84 | empty text is returned as is; otherwise, whatever the ligature step does, the result has no control characters |
| TextCleanup.FixTextOfCleanText | ferrules-core/src/entities.rs:20-84 | clean text goes through unchanged when the ligature step changes nothing |
| Spans.NewFromChar | ferrules-core/src/entities.rs:517-531 | a new span takes the character's font, weight and rotation, its index as start and end, and its text |
| Spans.SpanAppend | ferrules-core/src/entities.rs:533-563 | the character is refused exactly when size, name, weight or rotation differ; on acceptance the key and the start are kept, and the box grows to contain the old one (it stays unchanged in the prototype) |
| Spans.PushChar | ferrules-core/src/parse/native.rs:27-34 | one fold step leaves at least one span and adds at most one |
| Spans.PushCharStep | ferrules-core/src/parse/native.rs:27-34 | one loop iteration performs exactly the fold step on the character |
| Spans.SpansOf | ferrules-core/src/parse/native.rs:16-39 | there are at most as many spans as characters, and none exactly when there are no characters |
| Spans.ParseTextSpans | ferrules-core/src/parse/native.rs:16-39 | the loop computes the grouping fold |
| Spans.Runs | ferrules-core/src/parse/native.rs:16-39 | the reference split into runs is empty exactly for empty input |
| Spans.SpanOfRun | ferrules-core/src/entities.rs:517-563 | the span built from a run has the run's key |
| Spans.FlattenPushRun | ferrules-core/src/parse/native.rs:27-34 | adding a character to the runs appends it to their concatenation |
| Spans.MaximalPushRun | ferrules-core/src/parse/native.rs:27-34 | adding a character keeps the runs non-empty, uniform in key, with key changes between runs |
| Spans.RunsPartition | ferrules-core/src/parse/native.rs:16-39 | the runs partition the characters in order and are maximal |
| Spans.PushBuilt | ferrules-core/src/parse/native.rs:27-34 | one fold step keeps the spans in one-to-one correspondence with the runs |
| Spans.SpansAreRuns | ferrules-core/src/parse/native.rs:16-39 | each span is built from exactly one maximal run: every character lands in one span, in order, and a span starts exactly where `CharSpan::append` refuses |
| Spans.SpanTextsPush | ferrules-core/src/entities.rs:533-563 | one fold step appends the character's text to the spans' texts |
| Spans.SpanTextsOfChars | src/parse/native.rs:17-40 | the spans' texts, read in order, are the characters' texts in order |
| Spans.LibSpanBoxIsFirstChar | src/lib.rs:152-170 | in the prototype a span's box stays its first character's box, because the merged box is discarded |
| Spans.RunBoxLib | src/lib.rs:165-168 | the prototype's span built from a run has its first character's box |
| Spans.RunBoxCovers | src/entities.rs:285-312 | in the other generations a span's box contains every one of its characters' boxes |
| Spans.LibFlipUsesWidth | src/lib.rs:136-151 | the prototype flips a character's y against the page width, so on a page that is not square the top edge is misplaced |
| Spans.FlipAgainstHeight | ferrules-core/src/entities.rs:517-531 | the other generations measure y from the top of the page: y0 = H - top |
| Lines.NewFromSpan | ferrules-core/src/entities.rs:587-596 | a new line holds just the span, with the span's text, box and rotation |
| Lines.Append | ferrules-core/src/entities.rs:598-622 | a span is refused on a rotation change, on starting below the line, or when the line ends in "\n" or U+0002; refusal only cleans the text; acceptance appends the text and the span, and then the line box is replaced when degenerate, otherwise merged (older engine: merged; prototype: unchanged) |
| Lines.PushSpan | ferrules-core/src/parse/native.rs:44-55 | one fold step leaves at least one line and adds at most one |
| Lines.PushSpanStep | ferrules-core/src/parse/native.rs:44-55 | one loop iteration performs exactly the fold step on the span |
| Lines.LinesOf | ferrules-core/src/parse/native.rs:41-57 | there are at most as many lines as spans, and none exactly when there are no spans |
| Lines.ParseTextLines | ferrules-core/src/parse/native.rs:41-57 | the loop computes the line fold |
| Lines.AllSpansPushSpan | ferrules-core/src/parse/native.rs:44-55 | one fold step appends the span to the lines' spans |
| Lines.LinesPartition | ferrules-core/src/parse/native.rs:41-57 | concatenating the lines' spans gives back the input spans in order |
| Lines.RawTextPush | ferrules-core/src/entities.rs:598-622 | a line's raw text grows by the text of each appended span |
| Lines.NonEmptyPush | ferrules-core/src/parse/native.rs:44-55 | one fold step keeps every line non-empty |
| Lines.RotationsPush | ferrules-core/src/parse/native.rs:44-55 | one fold step keeps every line's spans at the line's rotation |
| Lines.ClosedCleanPush | ferrules-core/src/parse/native.rs:48-53 | one fold step keeps every closed line's text equal to the cleaned text of its spans |
| Lines.OpenRawPush | ferrules-core/src/parse/native.rs:48-53 | one fold step keeps the open line's text equal to the raw text of its spans |
| Lines.BreaksPush | ferrules-core/src/parse/native.rs:44-55 | one fold step keeps every line start at a span that the previous line refused |
| Lines.LinesWellGrouped | ferrules-core/src/parse/native.rs:41-57 | lines are non-empty; each line's spans share its rotation; closed lines are cleaned and the last line is not; each line break falls where `Line::append` refused |
| Lines.LibLineBoxIsFirstSpan | src/lib.rs:215-229 | in the prototype a line's box stays its first span's box |
| Lines.EntitiesAppendCovers | src/entities.rs:324-338 | appending in the older engine keeps a line's box covering its spans |
| Lines.EntitiesLineBoxCovers | src/parse/native.rs:42-58 | in the older engine every line's box contains each of its spans' boxes |
| Elements.KindOfLabel | ferrules-core/src/entities.rs:421-438 | Page-header, Page-footer, and Formula/Text map to Header, Footer and Text, and each is the only label that does |
| Elements.KnownLabels | ferrules-core/src/entities.rs:421-438 | exactly the detector's labels have an element kind; any other label is unreachable |
| Elements.FromLayoutBlock | ferrules-core/src/entities.rs:421-444 | the new element has the given id, the region's id, box and kind, the page, and empty text |
| Elements.AppendLine | ferrules-core/src/entities.rs:389-392 | appending writes the old text, one space, then the line |
| Elements.DropLeadingEmpty | ferrules-core/src/entities.rs:446-453 | what is left starts with a non-empty line |
| Elements.DropLeadingEmptyPush | ferrules-core/src/entities.rs:446-453 | pushing a line after the leading empty lines appends it |
| Elements.JoinStartsWithFirst | ferrules-core/src/entities.rs:386-392 | the joined text starts with the first line |
| Elements.JoinPush | ferrules-core/src/entities.rs:389-392 | joining one more line is appending it after a space |
| Elements.PushedIsJoin | ferrules-core/src/entities.rs:446-453 | an element's text is its lines joined with single spaces, from the first non-empty line on |
| Elements.PushedNonEmptyIsJoin | ferrules-core/src/entities.rs:446-453 | with no empty line, an element's text is exactly the space-joined lines |
| Sorting.InsertDesc | ferrules-core/src/layout/model.rs:371 | inserting adds exactly the element |
| Sorting.SortDesc | ferrules-core/src/layout/model.rs:371 | the sort is a permutation of its input |
| Sorting.InsertSorted | ferrules-core/src/layout/model.rs:371 | inserting into a sorted sequence keeps it sorted |
| Sorting.SortDescSorted | ferrules-core/src/layout/model.rs:371 | the output is in non-increasing key order |
| Sorting.InsertWithKey | ferrules-core/src/layout/model.rs:371 | inserting puts the element after those with an equal key |
| Sorting.SortDescStable | ferrules-core/src/layout/model.rs:371 | the sort is stable: elements with equal keys keep their input order |
| Sorting.SortDescOfSorted | ferrules-core/src/layout/model.rs:371 | an already sorted sequence is returned unchanged |
| Sorting.InsertDistinct | ferrules-core/src/layout/model.rs:371 | inserting a new element keeps the elements distinct |
| Sorting.SortDescDistinct | ferrules-core/src/layout/model.rs:371 | sorting keeps the elements distinct |
| Nms.Survivors | ferrules-core/src/layout/model.rs:372-390 | the greedy walk keeps a sub-multiset of its input |
| Nms.SuppressInPlace | ferrules-core/src/layout/model.rs:370-391 | after the in-place sort, walk and truncate, the kept prefix is the stable sort followed by the greedy walk |
| Nms.WalkInPlace | ferrules-core/src/layout/model.rs:372-390 | the swap-to-front walk leaves exactly the walk's survivors in the kept prefix |
| Nms.WalkTurn | ferrules-core/src/layout/model.rs:373-389 | one iteration of the walk extends the kept prefix to the survivors of one more sorted box, leaving the unvisited suffix untouched |
| Nms.SurvivorsStep | ferrules-core/src/layout/model.rs:373-389 | a box is kept exactly when no survivor before it suppresses it |
| Nms.IsSuppressed | ferrules-core/src/layout/model.rs:374-383 | the inner scan answers whether some kept box suppresses the candidate |
| Nms.SurvivorsPairwise | ferrules-core/src/layout/model.rs:372-390 | no survivor is suppressed by a survivor kept before it |
| Nms.CoveredByExtend | ferrules-core/src/layout/model.rs:372-390 | a box that is covered stays covered as more survivors are added |
| Nms.SurvivorsCover | ferrules-core/src/layout/model.rs:372-390 | over a sorted walk, every box survives or is suppressed by a survivor of at least its key |
| Nms.LastCovered | ferrules-core/src/layout/model.rs:373-389 | the last box of a sorted walk is covered |
| Nms.SurvivorsKeepFirst | ferrules-core/src/layout/model.rs:372-390 | the first box always survives |
| Nms.SurvivorsSorted | ferrules-core/src/layout/model.rs:372-390 | survivors of a sorted walk stay sorted |
| Nms.SurvivorsOfIndependent | ferrules-core/src/layout/model.rs:372-390 | a walk over boxes none of which suppresses a later one keeps them all |
| Nms.SuppressIdempotent | ferrules-core/src/layout/model.rs:370-391 | NMS applied to its own output changes nothing |
| Layout.TextLabels | ferrules-core/src/layout/model.rs:70-82 | of the detector's labels, exactly Picture and Table are not text |
| Layout.ArgMaxLast | ferrules-core/src/layout/model.rs:255-259 | the chosen class has a maximal score and is the last one with it |
| Layout.Ratio | ferrules-core/src/layout/model.rs:266-267 | the ratio is positive and fits the page image into 1024x1024 |
| Layout.Corners | ferrules-core/src/layout/model.rs:273-276 | the clamped corners lie within the page image |
| Layout.Extracted | ferrules-core/src/layout/model.rs:248-297 | at most one box per prediction |
| Layout.ScaleInPage | ferrules-core/src/layout/model.rs:286-295 | an ordered box inside the image stays inside the rescaled page |
| Layout.ExtractOneEmitted | ferrules-core/src/layout/model.rs:262-295 | an emitted box has confidence at least 0.3, a detector label that is the prediction's best class, and ordered corners inside the rescaled page; a prediction below 0.3 emits nothing |
| Layout.ExtractAt | ferrules-core/src/layout/model.rs:250-297 | one iteration over a prediction emits exactly the box the extraction defines for it, or none |
| Layout.ExtractBBoxes | ferrules-core/src/layout/model.rs:240-300 | the loop emits the extracted boxes, with ids 0, 1, 2, ... in order, each satisfying the emission conditions |
| Layout.NmsInPlace | ferrules-core/src/layout/model.rs:370-391 | the kept prefix is the label-blind relaxed-IoU NMS of the input |
| Layout.ParseLayout | ferrules-core/src/layout/model.rs:224-238 | a page's layout is the NMS, at threshold 0.8, of the extracted boxes |
| Layout.LayoutNmsSorted | ferrules-core/src/layout/model.rs:371-387 | the output is sorted by non-increasing probability, and is a sub-multiset of the input |
| Layout.LayoutNmsSeparated | ferrules-core/src/layout/model.rs:375-383 | no two survivors exceed the threshold, whatever their labels |
| Layout.LayoutNmsCovers | ferrules-core/src/layout/model.rs:375-383 | every input box survives, or exceeds the threshold against a survivor at least as probable |
| Layout.LayoutNmsKeepsBest | ferrules-core/src/layout/model.rs:370-390 | a most probable box survives, first |
| Layout.LayoutNmsIdempotent | ferrules-core/src/layout/model.rs:370-391 | a second run at the same threshold changes nothing |
| Layout.LayoutNmsDropsContained | ferrules-core/src/layout/model.rs:375-383 | of two boxes, at any threshold below 1, a less probable box that contains a more probable box of positive area is dropped, and the contained box alone is kept |
| Layout.LayoutNmsKeepsDisjoint | ferrules-core/src/layout/model.rs:370-391 | pairwise non-intersecting boxes all survive, in probability order |
| Layout.NoIntersectionNotExceeds | ferrules-core/src/layout/model.rs:376-379 | boxes that do not intersect never exceed a non-negative threshold |
| Layout.ExtractedDistinct | ferrules-core/src/layout/model.rs:286-297 | extracted boxes are pairwise distinct |
| Layout.ExtractedFacts | ferrules-core/src/layout/model.rs:262-297 | the extracted boxes' ids are their positions, and each satisfies the emission conditions |
| LegacyLayout.Corners | src/layout/model.rs:138-148 | the clamped corners lie within the image, ordered when the predicted sizes are non-negative |
| LegacyLayout.NonNegativeSizesSatisfyAssertions | src/layout/model.rs:145-152 | the corner assertions hold whenever every predicted width and height is non-negative |
| LegacyLayout.Extracted | src/layout/model.rs:112-160 | at most one box per prediction |
| LegacyLayout.ExtractBBoxes | src/layout/model.rs:112-160 | the loop keeps predictions with best score at least 0.3, clamped to the image, in order |
| LegacyLayout.NmsInPlace | src/layout/model.rs:196-214 | the kept prefix is the label-aware IoU NMS of the input |
| LegacyLayout.LegacyNmsSorted | src/layout/model.rs:197-211 | the output is sorted by non-increasing probability, never longer than the input, and a sub-multiset of it |
| LegacyLayout.LegacyNmsSeparated | src/layout/model.rs:201-207 | two survivors with the same label never exceed the IoU threshold |
| LegacyLayout.LegacyNmsCovers | src/layout/model.rs:199-207 | every box survives, or overlaps beyond the threshold a survivor of its label that is at least as probable |
| LegacyLayout.LegacyNmsKeepsBest | src/layout/model.rs:196-214 | a most probable box survives |
| LegacyLayout.LegacyNmsIdempotent | src/layout/model.rs:196-214 | a second run changes nothing |
| LegacyLayout.LegacyNmsKeepsDistinctLabels | src/layout/model.rs:201-207 | boxes with pairwise different labels all survive, in probability order |
| IndexNms.PixelIntersection | src/layout/nms.rs:124-136 | the +1-pixel intersection is never negative |
| IndexNms.Remaining | src/layout/nms.rs:136-144 | the candidates left after keeping an index are exactly those passing the overlap test against it |
| IndexNms.KeepFrom | src/layout/nms.rs:118-145 | the kept indices are valid row indices drawn from the order, no more of them than the order has |
| IndexNms.Down | src/layout/nms.rs:110-116 | n-1, n-2, ..., 0 |
| IndexNms.InitialOrder | src/layout/nms.rs:110-116 | the descending-score order is a sequence of valid indices, one per row |
| IndexNms.InitialOrderFacts | src/layout/nms.rs:110-116 | the initial order lists every row exactly once, in non-increasing score order, beginning with a row of maximal score |
| IndexNms.Nms | src/layout/nms.rs:99-148 | the while loop computes the kept indices |
| IndexNms.RemainingDistinct | src/layout/nms.rs:136-144 | filtering keeps indices distinct |
| IndexNms.KeepFromDistinct | src/layout/nms.rs:118-145 | kept indices are distinct |
| IndexNms.KeepFromSeparated | src/layout/nms.rs:124-144 | an index kept later passes the overlap test against every index kept earlier |
| IndexNms.KeepFromCovers | src/layout/nms.rs:118-145 | every index of the order is kept, or fails the overlap test against a kept index |
| IndexNms.KeepFromSorted | src/layout/nms.rs:118-145 | over a descending order, the kept indices stay in descending score order |
| IndexNms.RemainingSorted | src/layout/nms.rs:136-144 | filtering keeps the descending order |
| IndexNms.KeptIndicesProperties | src/layout/nms.rs:99-148 | the kept indices are distinct row indices; they are in non-increasing score order, the first of maximal score; they pairwise pass the overlap test; every other row is removed by a kept one |
| IndexNms.ClassFoldSpec | src/layout/nms.rs:7-17 | the fold from (0, 0.0) ends on the first index of maximal score when that score is positive, else on 0 |
| IndexNms.ClassIndexSpec | src/layout/nms.rs:7-17 | a row's class is its first maximal score when positive, and 0 when every score is at most 0 |
| IndexNms.Valid | src/layout/nms.rs:19-52 | every detection's score exceeds the score threshold, and there are at most as many detections as rows |
| IndexNms.ValidOne | src/layout/nms.rs:19-52 | one row yields a detection with its box, its class score and its class exactly when that score exceeds the threshold, and nothing otherwise |
| IndexNms.ValidAppend | src/layout/nms.rs:19-52 | the rows are filtered one by one: the detections of two blocks of rows are those of the first followed by those of the second, so every passing row is kept, in input order |
| IndexNms.Pick | src/layout/nms.rs:54-62 | the picked detections are the rows at the kept indices, in order |
| IndexNms.MulticlassNms | src/layout/nms.rs:1-97 | the result is the masked rows picked at the indices the NMS keeps |
| IndexNms.Emit | src/layout/nms.rs:56-62 | the output loop picks one detection per kept index |
| IndexNms.MulticlassNmsProperties | src/layout/nms.rs:1-97 | every emitted detection's score exceeds the score threshold, and emitted boxes pairwise pass the overlap test |
| Page.LineAreaNonNegative | ferrules-core/src/parse/page.rs:34 | the total line area of ordered boxes is non-negative |
| Page.BoxAreaNonNegative | ferrules-core/src/parse/page.rs:35 | the total region area of ordered boxes is non-negative |
| Page.NeedsOcrSpec | ferrules-core/src/parse/page.rs:33-43 | with no text-region area, OCR is asked for; otherwise exactly when the line area is below half the text-region area |
| Page.NoTextBoxesNeedsOcr | ferrules-core/src/parse/page.rs:37-42 | a page without text regions needs OCR |
| Page.MoreLinesLessOcr | ferrules-core/src/parse/page.rs:33-43 | adding lines can only turn the answer from yes to no |
| Page.MoreBoxesMoreOcr | ferrules-core/src/parse/page.rs:33-43 | once there is text-region area, adding regions can only turn the answer from no to yes |
| Page.NewTextBoxCanClearOcr | ferrules-core/src/parse/page.rs:37-42 | starting from no text-region area, a first region can turn yes into no |
| Page.TextBoxes | ferrules-core/src/parse/page.rs:71-72 | the text regions are exactly the page's regions with a text label |
| Page.ParsePageTextSpec | ferrules-core/src/parse/page.rs:65-92 | the decision uses the text regions only; the OCR lines replace the native ones exactly when OCR is asked for and succeeded, one per kept region, with its text and its box divided by the rescale factor; the decision is returned even when OCR failed |
| Page.NonTextIgnored | ferrules-core/src/parse/page.rs:71-72 | pictures and tables do not change the decision |
| Page.LayoutIds | ferrules-core/src/parse/page.rs:51-54 | the region ids of the elements, in order |
| Page.Unmerged | ferrules-core/src/parse/page.rs:55-58 | every unclaimed region of the page is in the result, every region in it is a page region whose id no element has, and detector labels are kept |
| Page.UnmergedOne | ferrules-core/src/parse/page.rs:55-58 | a single region is kept exactly when no element has its id |
| Page.UnmergedAppend | ferrules-core/src/parse/page.rs:55-58 | the filter goes region by region: the unclaimed regions of two blocks are those of the first followed by those of the second, so order and repeats are kept |
| Page.BuildPageElements | ferrules-core/src/parse/page.rs:45-63 | the page's elements are the merged lines, with the unclaimed regions inserted |
| Page.PageElementsSpec | ferrules-core/src/parse/page.rs:45-63 | every region id is some element's, and there is one element per merged element plus one per unclaimed region |
| Page.ParsedLayoutKnown | ferrules-core/src/entities.rs:421-436 | every region the layout parse yields carries a detector label, so `from_layout_block` never reaches its `unreachable!` arm on the page's layout |
| Page.RescaleFactor | src/parse/page.rs:111-118 | the rescale factor is positive |
| Page.OcrBoxAsWritten | src/parse/page.rs:78 | with the page rendered at scale s and the downscale factor 1/s passed to the conversion, a recognised box has the region's share of the page's size multiplied by s twice |
| Page.OcrBoxOffPage | src/parse/page.rs:78 | a 256 x 512 page rendered at factor 2: a region over the middle half of the image ends at x = 768 with the downscale factor, beyond the page, and at x = 192 with the rescale factor |
| Page.OcrBoxInPageUnits | src/ocr/mod.rs:31-35 | divided by the render scale itself, a recognised box has the region's share of the page's size, as the layout regions do |
| Page.OcrLinesInPage | src/ocr/mod.rs:81-95 | converted with the rescale factor, every recognised line of a page rendered at that factor has a proper box inside the page |
| Page.RescaleFits | src/parse/page.rs:111-136 | the rendered page fits 1024x1024 and fills it along one side, and the downscale factor undoes the rescale |
| Vision.PixelBox | src/ocr/mod.rs:16-24 | the pixel box has the rectangle's size in image pixels, and its bottom edge sits oy image heights above the image bottom |
| Vision.AssertedImagePositive | src/ocr/mod.rs:26-29 | the assertions imply a non-empty image and a rectangle of positive size |
| Vision.CgRectToBBox | src/ocr/mod.rs:14-37 | the box is the rectangle in image pixels, top-left origin, divided by the factor passed: it is proper, lies within the image's extent divided by that factor, and its size is the rectangle's share of the image divided by that factor |
| Vision.CgRectRoundTrip | src/ocr/mod.rs:14-37 | normalising the converted box gives back the recogniser's rectangle |
| Vision.ToLine | src/ocr/mod.rs:47-54 | the OCR line keeps text and box, with rotation 0 and no spans |
| Vision.ToLines | ferrules-core/src/parse/page.rs:80-86 | one line per OCR result, in order |
| Vision.CollectOcrLines | src/ocr/mod.rs:81-95 | the loop collects the lines of the kept regions |
| Vision.OcrLinesSpec | src/ocr/mod.rs:81-95 | there is one line per region of confidence above 0 with a candidate, and no other; each line's text comes from such a region; each box is proper and lies within the image's extent divided by the factor passed |
| Merge.Dist | ferrules-core/src/parse/merge.rs:18-19 | the merge engine's weighted distance is non-negative |
| Merge.MaxOverlapIndex | ferrules-core/src/parse/merge.rs:80-90 | the region of maximal overlap, the last one on ties |
| Merge.NearestIndex | ferrules-core/src/parse/merge.rs:99-108 | the nearest box, the first one on ties |
| Merge.Select | ferrules-core/src/parse/merge.rs:73-117 | the chosen region is a region index |
| Merge.ClaimsMonotone | ferrules-core/src/parse/merge.rs:91-96 | a region overlapping at least as much as one that covers half the line covers half too |
| Merge.SelectSpec | ferrules-core/src/parse/merge.rs:73-117 | when some region covers more than half the line, the last of maximal overlap is chosen; otherwise the first nearest region, if within distance 20, else none |
| Merge.SelectClaimed | ferrules-core/src/parse/merge.rs:80-96 | once any region covers more than half of the line, the region of maximal overlap is chosen and it covers more than half as well |
| Merge.SelectNearest | ferrules-core/src/parse/merge.rs:97-117 | when no region covers half the line, a region is chosen exactly when one lies within distance 20, and the chosen one is the first of least distance |
| Merge.FindByLayoutId | ferrules-core/src/parse/merge.rs:44-46 | the first element of the region, or none when no element has it |
| Merge.MergeOrCreateElements | ferrules-core/src/parse/merge.rs:27-55 | the method computes the merged elements |
| Merge.MergeOrCreateSpec | ferrules-core/src/parse/merge.rs:27-55 | the region then has exactly one element, which received the line: when the region already had an element, that element with the line pushed and the count unchanged; otherwise, on a non-empty vector, a new element numbered one past the count with the line pushed, appended at the end; other elements are unchanged; at most one element is added |
| Merge.FirstLinePushedTwice | ferrules-core/src/parse/merge.rs:33-41 | on an empty vector the region's first line is pushed twice |
| Merge.MergeLinesLayout | ferrules-core/src/parse/merge.rs:63-157 | the method computes headers, then the other elements, then footers |
| Merge.DispatchShape | ferrules-core/src/parse/merge.rs:120-152 | one line keeps the groups' shape and adds at most one element |
| Merge.MergeOrCreateGrowth | ferrules-core/src/parse/merge.rs:27-55 | merging a line adds at most one element |
| Merge.MergeIntoGroup | ferrules-core/src/parse/merge.rs:120-152 | merging a region of the group's kind keeps the group of one kind, one element per region |
| Merge.MergeIntoBody | ferrules-core/src/parse/merge.rs:120-152 | merging a region that is neither header nor footer keeps the body free of both |
| Merge.KindsOwn | ferrules-core/src/parse/merge.rs:27-55 | merging keeps old elements' kinds, and a new element has the region's kind |
| Merge.GroupedShape | ferrules-core/src/parse/merge.rs:120-157 | headers hold only Page-header elements, footers only Page-footer elements, and the body neither; within a group no region has two elements; every element comes from a page region; there are at most as many elements as lines |
| Merge.InsertionIndex | ferrules-core/src/parse/merge.rs:166-183 | the insertion index is within the vector |
| Merge.MergeRemaining | ferrules-core/src/parse/merge.rs:160-190 | the method inserts every remaining region |
| Merge.FindInsertionIndex | ferrules-core/src/parse/merge.rs:166-183 | the scan finds the first element of least distance, or the end when there are none |
| Merge.NearestUnique | ferrules-core/src/parse/merge.rs:166-183 | the first nearest index is fixed by its two properties |
| Merge.InsertRegionSpec | ferrules-core/src/parse/merge.rs:160-190 | old elements keep their order; the new empty element of the region sits just before its first nearest element, or at the end when there were none |
| Merge.InsertRegionKeeps | ferrules-core/src/parse/merge.rs:160-190 | one insertion keeps every old element and adds the region's |
| Merge.InsertedAllSpec | ferrules-core/src/parse/merge.rs:160-190 | one element more per region, every old element kept with its multiplicity, every inserted region present |
| BlockBuilder.RunLength | ferrules-core/src/parse/merge.rs:234-243 | the length of the front run of the given kinds: all within it match, and the one after does not |
| BlockBuilder.ListFold | ferrules-core/src/parse/merge.rs:225-246 | folding list items into a list block keeps its id, page and kind |
| BlockBuilder.NextBlock | ferrules-core/src/parse/merge.rs:196-416 | one step consumes between one element and all of them |
| BlockBuilder.ListStep | ferrules-core/src/parse/merge.rs:225-246 | the list-item branch consumes at least one element and no more than remain |
| BlockBuilder.CaptionRunStep | ferrules-core/src/parse/merge.rs:247-307 | the caption branch consumes at least one element and no more than remain |
| BlockBuilder.ImageStep | ferrules-core/src/parse/merge.rs:308-355 | the image branch consumes at least one element and no more than remain |
| BlockBuilder.JoinedStep | ferrules-core/src/parse/merge.rs:356-397 | the header and footer branches consume at least one element and no more than remain |
| BlockBuilder.AbsorbList | ferrules-core/src/parse/merge.rs:234-243 | the peek loop consumes exactly the run of list items and folds it into the block |
| BlockBuilder.AbsorbJoined | ferrules-core/src/parse/merge.rs:356-397 | the peek loop consumes exactly the run of headers (footers) and joins them in |
| BlockBuilder.AbsorbCaptions | ferrules-core/src/parse/merge.rs:247-273 | the peek loop consumes exactly the caption/footnote run and appends their texts |
| BlockBuilder.NextBlockAt | ferrules-core/src/parse/merge.rs:196-416 | one iteration yields the step's block and consumed count |
| BlockBuilder.ListStepAt | ferrules-core/src/parse/merge.rs:225-246 | the list-item branch, run on the array with its peek loop, yields the list step |
| BlockBuilder.ImageStepAt | ferrules-core/src/parse/merge.rs:308-355 | the image branch, with its one-element peek, yields the image step |
| BlockBuilder.JoinedStepAt | ferrules-core/src/parse/merge.rs:356-397 | the header and footer branches, with their peek loops, yield the joined step |
| BlockBuilder.PassTurn | ferrules-core/src/parse/merge.rs:196-416 | one iteration of the pass consumes at least one element and either carries the first error or leaves the remaining blocks unchanged: blocks so far followed by the blocks of what is left |
| BlockBuilder.CaptionStep | ferrules-core/src/parse/merge.rs:247-307 | the caption branch, with its peek loops, yields the caption step |
| BlockBuilder.MergeElementsIntoBlocks | ferrules-core/src/parse/merge.rs:193-419 | the pass computes the blocks of the elements, numbered from 0, or the first error |
| BlockBuilder.CoveringIsUnion | ferrules-core/src/parse/merge.rs:239-241 | the grown box is the union of the start box and every element's box |
| BlockBuilder.ListFoldSpec | ferrules-core/src/parse/merge.rs:225-246 | a list fold appends the run's texts as items, in order, and grows the box to their union |
| BlockBuilder.CaptionTextIsJoin | ferrules-core/src/parse/merge.rs:247-273 | the caption text is the caption and the following texts joined by single spaces |
| BlockBuilder.JoinFoldKeeps | ferrules-core/src/parse/merge.rs:356-397 | a join that keeps id and kind keeps the block's id over a run |
| BlockBuilder.NextBlockShape | ferrules-core/src/parse/merge.rs:196-416 | a step's block has the step's id and is never a table |
| BlockBuilder.BlocksFromShape | ferrules-core/src/parse/merge.rs:193-419 | blocks are numbered id, id+1, ... in output order; none is a table; there are no more than non-table elements |
| BlockBuilder.BlockIds | ferrules-core/src/parse/merge.rs:193-419 | a page's block ids run 0, 1, 2, ... |
| BlockBuilder.TableSkipped | ferrules-core/src/parse/merge.rs:412-416 | a table yields nothing and the id is not used |
| BlockBuilder.TextOneToOne | ferrules-core/src/parse/merge.rs:200-224 | a text element yields exactly one text block with its text, page and box |
| BlockBuilder.TitleLevelZero | ferrules-core/src/parse/merge.rs:398-411 | a title or section header yields a title block of level 0 |
| BlockBuilder.ListRunBlock | ferrules-core/src/parse/merge.rs:225-246 | a maximal list-item run yields one list block whose items are the run's texts, whose page is the first item's, and whose box is the union; the next element starts the next block |
| BlockBuilder.ListRunStep | ferrules-core/src/parse/merge.rs:225-246 | a maximal list-item run consumes exactly the run and becomes one list block of the run's texts, on the first item's page, covering the union of their boxes |
| BlockBuilder.CaptionRun | ferrules-core/src/parse/merge.rs:247-307 | a maximal caption/footnote run becomes a captioned image covering the first caption and the image, consuming the image as well, when an image follows; otherwise a text block of the joined texts consuming only the run |
| BlockBuilder.CaptionThenImage | ferrules-core/src/parse/merge.rs:274-286 | a caption run followed by an image yields one captioned image block covering the first caption and the image |
| BlockBuilder.CaptionAlone | ferrules-core/src/parse/merge.rs:255-301 | a caption run followed by no image is a text block of the joined texts; the next element is left for later |
| BlockBuilder.ImageThenCaption | ferrules-core/src/parse/merge.rs:321-339 | an image followed by a caption or footnote consumes that one element as its caption |
| BlockBuilder.ImageAlone | ferrules-core/src/parse/merge.rs:308-355 | an image not followed by a caption has none, and the next element is left |
| Blocks.Merge | src/blocks.rs:47-76 | a Text element extends a text block by "\n" and its text; a ListItem is added to a list block; the box becomes the least covering box; anything else is an error |
| Blocks.LabelIdentifiesKind | src/blocks.rs:78-88 | the label depends on the kind only, and different kinds have different labels |
| Titles.Order | ferrules-core/src/parse/titles.rs:37-42 | the centroid order is a permutation of 0..k-1, from tallest to shortest |
| Titles.CentroidLevels | ferrules-core/src/parse/titles.rs:37-47 | one level per centroid |
| Titles.LevelAt | ferrules-core/src/parse/titles.rs:43-47 | each centroid's level is its rank in height order, in a byte |
| Titles.LevelsInvertOrder | ferrules-core/src/parse/titles.rs:43-47 | the levels are the inverse permutation of the order |
| Titles.LevelsDistinct | ferrules-core/src/parse/titles.rs:37-47 | the levels are a permutation of 0..k-1 |
| Titles.TallerLower | ferrules-core/src/parse/titles.rs:41-47 | a strictly taller centroid gets a strictly smaller level |
| Titles.TallestFirst | ferrules-core/src/parse/titles.rs:41-47 | the first tallest centroid gets level 0 |
| Titles.CentroidLevelsSpec | ferrules-core/src/parse/titles.rs:37-47 | levels are a permutation, a taller centroid gets a smaller level, and a tallest one gets level 0 |
| Titles.TitleLevelsKmeans | ferrules-core/src/parse/titles.rs:12-54 | the method computes the level map around the clustering's output |
| Titles.InsertedSize | ferrules-core/src/parse/titles.rs:49-51 | the map has at most as many entries as titles |
| Titles.InsertedEntries | ferrules-core/src/parse/titles.rs:49-51 | every entry is set by some paired title |
| Titles.InsertedLatest | ferrules-core/src/parse/titles.rs:49-51 | a title not overwritten later keeps its centroid's level |
| Titles.InsertedSpec | ferrules-core/src/parse/titles.rs:49-51 | every key is a paired title's (page, id); at most one entry per title; a title gets its centroid's level unless a later title has its key |
| Titles.TitleLevelsSpec | ferrules-core/src/parse/titles.rs:21-51 | at most `buckets` titles give an empty map; otherwise every level is below the bucket count |
| Titles.LevelsBelow | ferrules-core/src/parse/titles.rs:37-47 | every level is below the number of centroids |
| Decimal.TrimStart | ferrules-api/src/main.rs:537-538 | a suffix of the input, without its leading whitespace |
| Decimal.TrimEnd | ferrules-api/src/main.rs:537-538 | a prefix of the input, without its trailing whitespace |
| Decimal.Trim | ferrules-api/src/main.rs:537-538 | a contiguous part of the input, all that is cut is whitespace, and neither end is whitespace |
| Decimal.TrimIdentity | ferrules-api/src/main.rs:537-538 | a string without whitespace at its ends is its own trim |
| Decimal.SplitOnce | ferrules-api/src/main.rs:536 | the parts around the first '-', or none when there is none |
| Decimal.SplitOnceAt | ferrules-api/src/main.rs:536 | splitting at a character the first part lacks gives the parts back |
| Decimal.Dec | ferrules-core/src/lib.rs:60-62 | a number's digits, non-empty, without leading zero |
| Decimal.ParseDigits | ferrules-api/src/main.rs:537-538 | a parsed value is within usize and came from digits only |
| Decimal.ParseUsize | ferrules-api/src/main.rs:537-538 | the empty string is the Empty error and only it; a parsed value fits usize |
| Decimal.ParseDec | ferrules-api/src/main.rs:537-538 | parsing a rendered number gives it back |
| Decimal.PlusSign | ferrules-api/src/main.rs:537-538 | a leading '+' is accepted |
| Decimal.NoMinus | ferrules-api/src/main.rs:537-538 | a leading '-' is always refused |
| PageRange.ParsePageRange | ferrules-api/src/main.rs:535-557 | every accepted range has start < end |
| PageRange.RangeAccepted | ferrules-api/src/main.rs:536-543 | "a-b" with 1 <= a <= b parses to a-1..b |
| PageRange.HalvesOf | ferrules-cli/src/main.rs:149-151 | the halves of "a-b" are a and b |
| PageRange.RangeRefused | ferrules-cli/src/main.rs:150-159 | "a-b" with a = 0 or b < a is refused |
| PageRange.UnparsableHalf | src/main.rs:107-116 | a half that does not parse after trimming makes it an error |
| PageRange.SinglePage | ferrules-cli/src/main.rs:160-170 | "n" with n >= 1 parses to n-1..n |
| PageRange.PageZeroRefused | src/main.rs:117-127 | "0" is refused |
| PageRange.SelectPages | ferrules-core/src/parse/native.rs:263-283 | a range ending past the document is an error; otherwise exactly the range's pages, in order; without a range, all pages |
| PageRange.DocLength | ferrules-core/src/utils.rs:28-40 | the range's length when it fits, the same error otherwise, the page count without a range |
| PageRange.DocLengthMatchesSelection | src/parse/native.rs:147-158 | the count reported ahead is the number of pages then processed, and both fail alike |
| PageRange.ParsedRangeSelects | ferrules-core/src/parse/native.rs:263-283 | an accepted range that fits selects one page or more, starting at the first page asked for |
| Providers.ParseEpArgs | ferrules-api/src/main.rs:123-139 | TensorRT, CUDA and CoreML appear in that order exactly when their flags are set; TensorRT and CUDA carry the signed 32-bit device id exactly as given, negative values included, and CoreML the neural-engine flag; CPU is always last; the length is 1 plus the set flags |
| Jobs.Start | ferrules-api/src/main.rs:200-212 | the job is registered, uncancelled, and other jobs are untouched |
| Jobs.Cancel | ferrules-api/src/main.rs:214-233 | a registered job is cancelled and stays registered; an unknown id is the not-found error |
| Jobs.Complete | ferrules-api/src/main.rs:235-240 | the job is removed and the others kept |
| Jobs.JobManager.constructor | ferrules-api/src/main.rs:194-198 | the registry starts empty |
| Jobs.JobManager.StartJob | ferrules-api/src/main.rs:200-212 | the registry becomes the started one |
| Jobs.JobManager.CancelJob | ferrules-api/src/main.rs:214-233 | success exactly for a registered job; on error the registry is unchanged |
| Jobs.JobManager.CompleteJob | ferrules-api/src/main.rs:235-240 | the registry becomes the completed one |
| Jobs.Lifecycle | ferrules-api/src/main.rs:200-240 | a started job can be cancelled; a completed one cannot |
| Jobs.StartThenComplete | ferrules-api/src/main.rs:200-240 | starting then completing a job leaves the others as they were |
| Jobs.CancelIdempotent | ferrules-api/src/main.rs:214-233 | cancelling twice is cancelling once |
| Jobs.IndependentJobs | ferrules-api/src/main.rs:200-240 | operations on different jobs commute and do not interfere |
| DocUtils.Dashed | ferrules-core/src/utils.rs:46-55 | allowed characters stay in place and all others become '-' |
| DocUtils.NonWhitespaceLength | ferrules-core/src/utils.rs:48-49 | the non-whitespace characters plus the whitespace count make up the length |
| DocUtils.SanitizeIsDashedNonWhitespace | ferrules-core/src/utils.rs:43-56 | sanitizing drops exactly the whitespace and replaces each other disallowed character by '-' |
| DocUtils.SanitizeSpec | ferrules-core/src/lib.rs:25-38 | no whitespace, only alphanumerics, '-' and '_', and shorter by exactly the whitespace count |
| DocUtils.SanitizeAllowed | ferrules-core/src/lib.rs:28-36 | a name of allowed characters is unchanged |
| DocUtils.SanitizeIdempotent | ferrules-core/src/utils.rs:43-56 | sanitizing twice is sanitizing once |
| DocUtils.ResultDirNameSpec | ferrules-core/src/lib.rs:80 | the result directory is the sanitized name followed by "-results", with no whitespace |
| DocUtils.CastU32 | ferrules-core/src/lib.rs:51-56 | the float-to-u32 cast truncates toward zero and saturates at 0 and at the maximum |
| DocUtils.AddU32 | ferrules-core/src/lib.rs:54-55 | u32 addition wraps modulo 2^32, and is exact when there is no overflow |
| DocUtils.CropOriginSpec | ferrules-core/src/lib.rs:51-53 | the crop starts at the block's edge less 5, or 0 for a block in the padding |
| DocUtils.CropSideSpec | ferrules-core/src/lib.rs:54-56 | a crop side never exceeds the page side; with room, it is the block side plus 10, less the truncated fraction |
| DocUtils.FindPage | ferrules-core/src/lib.rs:46-49 | the first page with the id, or none |
| DocUtils.SaveDocImages | ferrules-core/src/lib.rs:40-73 | the loop saves the crops of the figures whose page is found |
| DocUtils.SavedCropsSpec | ferrules-core/src/lib.rs:41-62 | one saved file per figure whose page is found; the k-th file is named page_{p}_img_{k}.png |
| DocUtils.SavedCropsFit | ferrules-core/src/utils.rs:68-73 | every crop's width and height are at most its page's |
| DocUtils.DecInjective | ferrules-core/src/lib.rs:60-62 | distinct numbers render differently |
| DocUtils.NameParts | ferrules-core/src/lib.rs:60-62 | the numbers of a file name can be read back |
| DocUtils.FileNameInjective | ferrules-core/src/lib.rs:60-62 | different (page, index) pairs get different file names |
| DocUtils.SavedFilesDistinct | ferrules-core/src/lib.rs:41-62 | no two saved figures share a file |
| LegacyEntities.IsTextIsTextBearingButCaption | src/entities.rs:137-148 | `is_text` holds exactly for the text-bearing kinds other than Caption |
| LegacyEntities.KindOfLabel | src/entities.rs:161-185 | a kind exists exactly for the detector's labels; Formula and Text give Text, Picture gives Image, Table gives Table; text kinds start empty |
| LegacyEntities.FromLayoutBlock | src/entities.rs:161-185 | the new block has no children, the region's box, the given ids and page, and the label's kind |
| LegacyEntities.PushLine | src/entities.rs:186-202 | a text-bearing kind gets " " and the line appended; Image and Table blocks are unchanged; other fields are kept |
| LegacyEntities.PushLines | src/entities.rs:186-202 | pushing lines never changes whether a kind bears text |
| LegacyEntities.PushLinesText | src/entities.rs:115-118 | each pushed line is appended after a space |
| LegacyEntities.LeadingSpace | src/entities.rs:115-118 | even a fresh block's first line gets a leading space |
| LegacyEntities.RenderBlockCases | src/entities.rs:227-253 | Title and Subtitle give "# t\n", Text gives "t\n", ListItem gives "- t\n", the other text kinds give "\n", and Caption, Image and Table give nothing; the rendered blocks are exactly the `is_text` ones |
| LegacyEntities.Render | src/entities.rs:227-253 | the loop renders the pages one after another |
| LegacyEntities.RenderBlocksAppend | src/entities.rs:227-253 | rendering distributes over concatenation |
| LegacyEntities.RenderIsFlat | src/entities.rs:227-253 | rendering page by page is rendering all blocks in page-then-block order |
| LegacyEntities.OnlyTextRendered | src/entities.rs:232-235 | dropping the blocks that are not `is_text` does not change the output |
| LegacyEntities.TextOnly | src/entities.rs:232-235 | the kept blocks are all `is_text`, and there are no more than the input has |
| LegacyEntities.RenderedLength | src/entities.rs:227-253 | each rendered block contributes at least one character |

## Left out

- The layout detector is replaced by an abstract sequence of predictions. Model
  loading, image resizing, tensor filling and inference run in ONNX Runtime,
  outside the code modelled here.
- PDF loading and rendering are left out: they are done by pdfium. A character
  is a record of its text, bounds, font and rotation.
- Apple Vision OCR is replaced by a sequence of recognised regions, or None for
  a failed recognition.
- The k-means clustering in `title_levels_kmeans` is replaced by its centroids
  and assignments.
- The regex-based `fix_ligature_corruption` and the external text fixer are
  parameters. Regular expressions are outside the model.
- The alphanumeric test of `sanitize_doc_name` is a parameter. Unicode's
  alphanumeric tables are not modelled; only the fact that no whitespace is
  alphanumeric is used.
- `ferrules-core/src/blocks.rs` is not part of this model.
  `merge_elements_into_blocks` uses its block merge in two places:
  - in the header and footer joins, where the merge is a parameter;
  - in the list branch, which the `BlockBuilder.ListFold` line below covers.
- `BlockBuilder.ListFold` (and with it `BlockBuilder.AbsorbList`,
  `BlockBuilder.ListFoldSpec`, `BlockBuilder.ListRunBlock` and
  `BlockBuilder.ListRunStep`) models the list branch's
  `list_block.merge(next_el)?` (`ferrules-core/src/parse/merge.rs:239`).
  - It assumes the current engine's merge acts like the older engine's list
    case in `src/blocks.rs:61-69`: it appends the element's text as an item,
    grows the box to the union, and never fails on a list item.
  - The error path of that `?` is therefore not modelled.
- `TextCleanup.Lower` (and `TextCleanup.Lowercase`, which maps it over the
  context) lowercases only ASCII `A`-`Z`. The source uses Unicode
  `str::to_lowercase` (`ferrules-core/src/entities.rs:182`).
  - So a context with a non-ASCII capital can pick a different ligature.
  - Example: the prefix "WOR" followed by the Kelvin sign U+212A, with the
    suffix "owx". The source lowercases this to contain "work" and returns
    "fl"; the model does not.
- `IndexNms.InitialOrder` assumes that `utils::argsort_by`
  (`src/layout/nms.rs:111`) is a stable ascending sort of the row indices.
  `utils` is not part of this model.
- `IndexNms.Valid`, `IndexNms.MulticlassNms` and
  `IndexNms.MulticlassNmsProperties` require every score row to be non-empty.
  On an empty row the class-score read `e[*i]` (`src/layout/nms.rs:19-24`)
  indexes out of bounds and panics; that panic is not modelled.
  `IndexNms.ClassIndexSpec` has no such requirement: the class fold alone is
  total.
- `Blocks.Merge` requires a text or list block. On header, footer, title,
  image and table blocks, the older engine's `merge` stops with `todo!()`
  (`src/blocks.rs:70-74`); that stop is not modelled.
- `Page.ParsePageText` and `Vision.ToLines` apply the older engine's `to_line`
  (`src/ocr/mod.rs:47-54`) and `cgrect_to_bbox` to the current engine's OCR
  results.
  - The current engine's `ocr` module is not part of this model.
  - Its conversion is assumed to keep the text and box, with rotation 0 and no
    spans, as the older one does.
  - `Page.ParsePageText` converts the recognised boxes with the rescale factor
    (see Findings); the call at `ferrules-core/src/parse/page.rs:76` passes the
    downscale factor, as the older engine does.
- Asynchronous plumbing is left out: queues, channels, task sets, the HTTP
  handlers and tracing. The sequential logic they call is modelled.
- File-system work is left out: directories, image and document writing, and
  the rendering to HTML and Markdown files. So are their error paths.
- `f32` rounding, NaN and infinities are not modelled; coordinates are reals.
  Where the source divides by a quantity that can be zero, either that case is
  excluded by a precondition, or its IEEE comparison is written out:
  - NMS suppression and the line-coverage ratio compare relaxed IoU under IEEE
    rules, with +inf exceeding the threshold and NaN never doing so;
  - the index NMS does the same with its "IEEE comparison".
- `Geometry.Iou` and `Geometry.RelaxedIou` require a non-zero denominator,
  because the source divides unchecked. The NMS uses explicit IEEE-style
  comparisons instead.
- `Vision.CgRectToBBox` requires the conditions the source asserts, since it
  panics without them.
- `LegacyLayout.ExtractBBoxes` requires the corner assertions that the source
  panics on. `LegacyLayout.NonNegativeSizesSatisfyAssertions` shows they hold
  for non-negative predicted sizes.
- `DocUtils.SaveDocImages` requires every block to be saveable. The source
  stops with `todo!()` on a table and panics on a figure with no page. Partial
  saves made before such a stop are not modelled.
- `DocUtils.AddU32`: the crop's u32 addition is modelled as an optimised build
  performs it (wrap-around). A debug build would panic instead.
- `Titles.CentroidLevels`: levels are stored in a byte, so they wrap past 256
  buckets. That is written out; the permutation lemmas require at most 256
  centroids.
- `Page.MoreBoxesMoreOcr` requires some text-region area to begin with.
  Without it the claim is false, as `Page.NewTextBoxCanClearOcr` shows.
- The legacy `push_line` also prints a diagnostic message; that output is not
  modelled.
- The older `Document`'s path, name and debug-path fields are not modelled;
  rendering reads only the pages.
- `Jobs.JobManager.StartJob` does not model the returned cancellation token or
  the event channel. A job's cancellation is the boolean kept for it.
- `usize` is modelled as 64-bit; the page-range parser's bound is 2^64 - 1.

## Findings

| source | as written | input that shows it | evidently intended | confidence | as-written member | corrected member |
|---|---|---|---|---|---|---|
| src/lib.rs:140-142 | `CharSpan::new_from_char` flips the character's bounds against the page width | any character on a page that is not square, such as A4 portrait: its top edge lands at W - top instead of H - top | flip against the page height, as `src/entities.rs` and `ferrules-core/src/entities.rs` do | high; not executed | Spans.LibFlipUsesWidth | Spans.FlipAgainstHeight |
| src/lib.rs:167 | `CharSpan::append` calls the value-returning `merge` and drops its result, so the span box never grows | two same-font characters side by side: the span's box remains the first character's | the span's box covers all its characters, as in the later generations | high; not executed | Spans.LibSpanBoxIsFirstChar | Spans.RunBoxCovers |
| src/lib.rs:224 | `Line::append` drops the merged box in the same way | two spans accepted into one line: the line's box remains the first span's | the line's box covers all its spans, as in `src/entities.rs` | high; not executed | Lines.LibLineBoxIsFirstSpan | Lines.EntitiesLineBoxCovers |
| src/parse/page.rs:78 | the OCR call passes the downscale factor 1/s, and `cgrect_to_bbox` (`src/ocr/mod.rs:31-35`) divides the image pixels by it, so boxes come out at the page's size times s squared; the current engine's call at `ferrules-core/src/parse/page.rs:76` has the same shape | a 256 x 512 page rendered at factor 2 into 512 x 1024 pixels, with a region over the middle half of the image: its box ends at x = 768, beyond the page's width of 256 | divide by the rescale factor, so that text boxes are in page points like the layout regions they are compared with | medium; not executed | Page.OcrBoxAsWritten | Page.OcrLinesInPage |
