# ReDRAW raster-to-stroke core, modelled in Dafny

ReDRAW redraws a raster image as a list of strokes, each a line segment with a width and a colour. This project models the integer core of its browser pipeline under `docs/js/`:

- `MedianIntBin` (medianbin.js) is a 256-bin histogram. It has a running count and a median cursor, which it moves one element at a time as values enter and leave (`medianbin.dfy`).
- `ImageUtils` (imageutils.js) does three things:
  - integer RGB <-> YCoCg conversion into clamped byte images;
  - a sliding-window median filter built on one `MedianIntBin` per channel;
  - painting a colour through a mask (`imageutils.dfy`).
  - The rows the filter's bins hold, as multisets, are in `medianwindow.dfy`.
- `MaskUtils` (maskutils.js) holds the binary-mask algorithms, in `maskutils.dfy`:
  - the tolerance mask of a colour and its complementary count;
  - 8-connected component labelling with an explicit stack;
  - inner edges;
  - the brush-width search;
  - the loop tracer's path building;
  - stripe filling.
- `DecomposeModel` (model_decomposition.js) is the glue, in `decompose.dfy`:
  - the alpha blend with white;
  - the tolerance mask and score cut-off of `scoreComponents`;
  - per-label masks;
  - the candidate sort and pop;
  - the strokes `renderPath` emits.
- `MPState` (mp.js) is the stroke history of the drawing panel: five parallel arrays plus the `strokeIndex` and `dataIndex` fields (`mp.dfy`).
- `SVGBuilder` (svgbuilder.js) is the append-only SVG serialiser and its hex colour encoder (`svgbuilder.dfy`).

`common.dfy` holds what the modules share:
- JavaScript's 32-bit `>>`;
- the clamping of a `Uint8ClampedArray` store;
- ndarray's flat layout of a [width, height] grid, read at `x * height + y`;
- the scaled squared RGB distance.

Objects whose fields the source updates in place are classes: `MedianIntBin`, `MPState`, `SVGBuilder`, `MaskUtils` and its `Tracer`. Their methods are proved against specification functions. Those functions describe the code as written, and the lemmas beside them state what the source promises. Where the code departs from what it evidently intends, two things are modelled. The "as written" member carries the code's behaviour, and the classes follow it. A corrected member beside it states the intended behaviour, with that behaviour proved. Both halves are listed under "## Findings".

The colour distance `((p - c) / 255)^2` summed over three channels is modelled on `real`. The morphological opening of `estimateWidth` and the traversal order of the loop tracer are parameters.

## Model

| member | source | states |
|---|---|---|
| Common.ToInt32 | docs/js/imageutils.js:52-55 | the 32-bit signed value a shift operand becomes, equal to the operand in range |
| Common.Shr | docs/js/imageutils.js:52-55 | `a >> 1` and `a >> 2` on the 32-bit value: floor division by 2 and 4 for in-range operands |
| Common.Clamp8 | docs/js/imageutils.js:23 | a value stored into a `Uint8ClampedArray` is clamped into 0..255 |
| Common.PixelDistance | docs/js/maskutils.js:107-114 | the channel loop computes the sum over channels 0-2 of `((pix - color) / 255)^2`, the distance the tolerance tests compare |
| MedianBin.ArrayAsNumber | docs/js/medianbin.js:38 | the Uint32Array operand of `offset >= this.bin` reads as NaN with two bins or more, and as its one element with one bin |
| MedianBin.Bump | docs/js/medianbin.js:51 | `bin[x] += d` keeps the length and is stored modulo 2^32 |
| MedianBin.ScanDown | docs/js/medianbin.js:25-28 | the downward `while (bin[m] == 0)` stops at or below m, never on an empty bin, having passed only empty bins |
| MedianBin.ScanUp | docs/js/medianbin.js:39-42 | the upward `while (bin[m] == 0)` stops at or above m, never on an empty bin, having passed only empty bins |
| MedianBin.EmptyIsConsistent | docs/js/medianbin.js:9-18 | a new bin has all bins 0, count 0, median 0, offset 0 and is not indexed, so count equals the bin total |
| MedianBin.AddKeepsCount | docs/js/medianbin.js:49-58 | `addValue(x)` raises `bin[x]` and `count` by one and leaves every other bin; count stays the bin total; before `index()` the cursor does not move |
| MedianBin.SubKeepsCount | docs/js/medianbin.js:79-87 | `subValue(x)` of a present value lowers `bin[x]` and `count` by one and leaves every other bin; before `index()` the cursor does not move |
| MedianBin.SubEmptyBinWraps | docs/js/medianbin.js:81 | removing from an empty bin wraps it to 2^32 - 1 |
| MedianBin.IndexResult | docs/js/medianbin.js:126-150 | `index()` targets `count >> 1`, keeps bins and count, sets indexed, and stops where the bins below `median` plus `bin[0]` reach the target, with `offset = target - acc` |
| MedianBin.IndexScanSums | docs/js/medianbin.js:137-141 | the scan's accumulator is the sum of the bins below the cursor, with `binVal` read once |
| MedianBin.IndexOvershoots | docs/js/medianbin.js:137-141 | with values {1, 1, 1} the scan as written ends past the array with offset -2; the corrected scan stops in bin 1 |
| MedianBin.IndexScanFixedFinds | docs/js/medianbin.js:137-141 | the corrected scan stops at the bin where the cumulative count passes the target |
| MedianBin.IndexFixedCentres | docs/js/medianbin.js:126-150 | the corrected `index()` puts the cursor on the element of rank `count >> 1` |
| MedianBin.DecrStepsDown | docs/js/medianbin.js:21-32 | `decrMedian` moves the cursor to the previous element in sorted order, landing on the top of the nearest non-empty lower bin when it falls off its bin |
| MedianBin.IncrNeverAdvances | docs/js/medianbin.js:35-46 | as written, with two bins or more `incrMedian` only raises `offset`; the median never changes bin |
| MedianBin.IncrFixedStepsUp | docs/js/medianbin.js:35-46 | with the overflow test against `bin[median]`, `incrMedian` moves the cursor to the next element in sorted order |
| MedianBin.AddFixedKeepsCentred | docs/js/medianbin.js:60-75 | with the corrected `incrMedian`, `addValue` keeps the cursor on the element of rank `count >> 1` |
| MedianBin.SubFixedKeepsCentred | docs/js/medianbin.js:89-103 | with both corrections, `subValue` of a stored value keeps the cursor on the element of rank `count >> 1` |
| MedianBin.SubCursorFixedCentred | docs/js/medianbin.js:89-103 | the corrected cursor step of `subValue` moves the cursor from the element of rank `count >> 1` to that of rank `(count - 1) >> 1` |
| MedianBin.CentredMedian | docs/js/medianbin.js:106-109 | a centred cursor's bin is non-empty and its cumulative count straddles `count / 2`: `getMedian` returns the median |
| MedianBin.AddLosesMedian | docs/js/medianbin.js:60-75 | after adding 0, 0, 1, indexing and adding 1, the code as written leaves the cursor past the end of bin 0, so `getMedian` says 0; corrected, it says 1 |
| MedianBin.ThreeAddsIndexed | docs/js/medianbin.js:49-58 | adding 0, 0, 1 to two bins and indexing gives bins [2, 1], count 3, cursor (0, 1) |
| MedianBin.SubOwnValueOvershoots | docs/js/medianbin.js:97-101 | removing a 1 from {1, 1, 1} with the cursor in bin 1 sends the cursor past the last bin; the corrected removal keeps it in bin 1 |
| MedianBin.MedianIntBin.constructor | docs/js/medianbin.js:9-18 | a new `MedianIntBin(range)` is in the empty state |
| MedianBin.MedianIntBin.Flush | docs/js/medianbin.js:117-123 | `flush()` puts the object back into the empty state |
| MedianBin.MedianIntBin.DecrMedian | docs/js/medianbin.js:21-32 | `decrMedian()` changes only the cursor, as `DecrCursor` |
| MedianBin.MedianIntBin.IncrMedian | docs/js/medianbin.js:35-46 | `incrMedian()` changes only the cursor, as `IncrCursor` as written |
| MedianBin.MedianIntBin.AddValue | docs/js/medianbin.js:49-76 | `addValue(x)` changes the fields as `AddSpec` |
| MedianBin.MedianIntBin.SubValue | docs/js/medianbin.js:79-104 | `subValue(x)` changes the fields as `SubSpec` |
| MedianBin.MedianIntBin.GetMedian | docs/js/medianbin.js:106-114 | the median bin once indexed, undefined before |
| MedianBin.MedianIntBin.Index | docs/js/medianbin.js:126-150 | `index()` changes the fields as `IndexSpec` |
| ImageUtils.ConvertColorSpace | docs/js/imageutils.js:19-82 | an unknown destination is an error; otherwise a fresh image of the input's shape whose channels 0-2 hold each pixel converted and clamped, and whose other channels hold 255 |
| ImageUtils.ConvertColumn | docs/js/imageutils.js:47-59 | the inner loop converts every pixel of one column and writes nothing else |
| ImageUtils.ConvertPixel | docs/js/imageutils.js:49-58 | channels 0-2 of one pixel are converted and clamped, nothing else changes |
| ImageUtils.YCoCgInRange | docs/js/imageutils.js:52-55 | for byte inputs luma is in 0..254 and both chroma channels in 1..255 |
| ImageUtils.RoundTripBounds | docs/js/imageutils.js:46-75 | RGB -> YCoCg -> RGB through byte images loses at most 2 in red and blue and the low bit of green, and never gains |
| ImageUtils.RoundTripLosesTwo | docs/js/imageutils.js:52-55 | (3, 0, 0) converts to YCoCg (0, 129, 128) |
| ImageUtils.RoundTripComesBack | docs/js/imageutils.js:65-73 | YCoCg (0, 129, 128) comes back as (1, 0, -1), stored as (1, 0, 0) |
| ImageUtils.SetImgColByMaskMut | docs/js/imageutils.js:266-287 | where the mask is truthy, channels 0-2 take the colour and channel 3 becomes 255; every other value is unchanged |
| ImageUtils.PaintPixel | docs/js/imageutils.js:279-283 | one masked pixel takes the colour and opaque alpha; nothing else changes |
| ImageUtils.AddPixelBin | docs/js/imageutils.js:150-157 | each channel's bin adds that channel's value of the pixel |
| ImageUtils.SubPixelBin | docs/js/imageutils.js:160-167 | each channel's bin removes that channel's value of the pixel |
| ImageUtils.WriteMedian | docs/js/imageutils.js:170-177 | each filtered channel of the pixel receives its bin's `getMedian()`, clamped; the bins and every other value stay |
| ImageUtils.FlushBins | docs/js/imageutils.js:185-187 | every bin is emptied |
| ImageUtils.IndexBins | docs/js/imageutils.js:206-208 | every bin is indexed |
| ImageUtils.FillBins | docs/js/imageutils.js:199-203 | the bins receive rows 0..n-1 of the window's columns, column by column |
| ImageUtils.AddRowBins | docs/js/imageutils.js:219-221 | the bins receive one row of the window's columns |
| ImageUtils.SubAddRowBins | docs/js/imageutils.js:231-234 | per column, the leaving row's pixel is removed and the entering row's pixel added |
| ImageUtils.SubAddPixelBins | docs/js/imageutils.js:232-233 | one column's remove-then-add step |
| ImageUtils.SubRowBins | docs/js/imageutils.js:243-245 | the bins lose one row of the window's columns |
| ImageUtils.ColumnPhases | docs/js/imageutils.js:182-248 | the column's bin states go through the start and the three row phases in order |
| ImageUtils.FilterColumn | docs/js/imageutils.js:180-252 | one outer-loop pass writes every pixel of column x with the median of its bin state, and nothing outside column x |
| ImageUtils.StartColumn | docs/js/imageutils.js:182-211 | flush, fill rows 0..r, index and write row 0 |
| ImageUtils.LoadColumn | docs/js/imageutils.js:185-208 | the bins hold the indexed initial window of the column |
| ImageUtils.GrowRows | docs/js/imageutils.js:216-224 | while y < r, row y + r enters and row y is written |
| ImageUtils.SlideRows | docs/js/imageutils.js:227-237 | while y < height - r, row y - r leaves, row y + r enters, and row y is written |
| ImageUtils.ShrinkRows | docs/js/imageutils.js:240-248 | to the bottom, row y - r leaves and row y is written |
| ImageUtils.NewBins | docs/js/imageutils.js:130-134 | one fresh empty `MedianIntBin(256)` per channel |
| ImageUtils.MedianFilter | docs/js/imageutils.js:94-257 | k = 1 returns the input itself; an even or non-positive k is an error; otherwise a fresh image of the same shape whose first `min(shape[2], forceChannels)` channels hold the median the code's bins give, and whose other channels hold 255 |
| MedianWindow.AddColumn | docs/js/imageutils.js:199-203 | the bin state after adding rows 0..n-1 of one column |
| MedianWindow.InitFill | docs/js/imageutils.js:199-203 | the bin state after the initial fill of columns x0..x1-1 |
| MedianWindow.AddRow | docs/js/imageutils.js:219-221 | the bin state after adding one row of the window's columns |
| MedianWindow.SubRow | docs/js/imageutils.js:243-245 | the bin state after removing one row |
| MedianWindow.SubAddRow | docs/js/imageutils.js:231-234 | the bin state after the remove-then-add step of every column |
| MedianWindow.AddHolds | docs/js/medianbin.js:49-76 | adding a byte to bins holding multiset M makes them hold M plus that value |
| MedianWindow.SubHolds | docs/js/medianbin.js:79-104 | removing a held byte makes the bins hold the rest |
| MedianWindow.FillHolds | docs/js/imageutils.js:185-203 | the initial fill makes the bins hold exactly the rectangle of rows 0..n-1 |
| MedianWindow.StartHolds | docs/js/imageutils.js:185-208 | after flush, fill and index the bins hold exactly rows 0..r of the window's columns and are indexed; with the corrected bins the cursor is centred |
| MedianWindow.GrowHolds | docs/js/imageutils.js:216-224 | adding row hi to bins holding rows lo..hi-1 makes them hold rows lo..hi |
| MedianWindow.SlideHolds | docs/js/imageutils.js:227-237 | removing row lo and adding row hi moves the held rows down by one |
| MedianWindow.ShrinkHolds | docs/js/imageutils.js:240-248 | removing row lo leaves rows lo+1..hi-1 held |
| MedianWindow.IndexHolds | docs/js/medianbin.js:126-150 | `index()` keeps what the bins hold; the corrected scan centres the cursor |
| MedianWindow.HeldWindow | docs/js/imageutils.js:180-248 | as written, when pixel (x, y) is written the bins hold exactly the window's columns and rows `HeldLo(y) .. WindowHi(y) - 1`, which for y >= r starts at y - r + 1 |
| MedianWindow.TopRowDropped | docs/js/imageutils.js:227-248 | from y = r on, the held pixels plus row y - r make the whole intended window, so `count` is short by the window's width |
| MedianWindow.FixedWindow | docs/js/imageutils.js:180-248 | removing row y - r - 1 instead, with the corrected bin operations, the bins hold the whole window and the cursor sits on rank `count >> 1` |
| MedianWindow.FixedWritesMedian | docs/js/imageutils.js:170-177 | the corrected filter writes the bin where the window's cumulative histogram passes `count >> 1`: the window's median |
| Decompose.BlendedBytes | docs/js/model_decomposition.js:79-86 | for bytes, a pixel with alpha <= 127 turns white in RGB and one with alpha >= 128 keeps its colour |
| Decompose.BlendWithWhite | docs/js/model_decomposition.js:66-88 | with fewer than 4 channels nothing changes; otherwise every pixel's channels 0-2 are blended and every other channel, alpha included, is kept |
| Decompose.BlendPixel | docs/js/model_decomposition.js:79-86 | one pixel's channels 0-2 are blended, nothing else changes |
| Decompose.ExactColourTolerated | docs/js/model_decomposition.js:157-165 | a pixel of exactly the palette colour has distance 0 and joins its mask |
| Decompose.ToleranceMask | docs/js/model_decomposition.js:144-169 | a fresh [width, height] mask holding 1 exactly where the distance to `color` is below `TOLERANCE`, and 0 elsewhere |
| Decompose.KeptLabels | docs/js/model_decomposition.js:179-189 | the labels 1..labels-1 whose score reaches the threshold, in ascending order |
| Decompose.KeptLabelsExact | docs/js/model_decomposition.js:179-189 | a label is kept iff it is in 1..labels-1 and its score is not below the threshold; kept labels strictly ascend |
| Decompose.PickComponents | docs/js/model_decomposition.js:179-210 | one component per kept label, in label order, each with the label's mask, its score and the query colour |
| Decompose.MaskOf | docs/js/model_decomposition.js:193-200 | the mask of a label has the grid's length and is 1 exactly where the grid holds the label, 0 elsewhere |
| Decompose.ExtractMask | docs/js/model_decomposition.js:193-200 | the component mask is 1 exactly where the label grid holds the label, and 0 elsewhere |
| Decompose.SortByScoreSorts | docs/js/model_decomposition.js:319-321 | sorting by `a.score - b.score` orders ascending and keeps every candidate as often as it occurs |
| Decompose.InsertStable | docs/js/model_decomposition.js:319-321 | inserting into a sorted list places the new component after every component of equal score |
| Decompose.SortByScoreStable | docs/js/model_decomposition.js:319-321 | the sort is stable: the components of each score keep their relative order |
| Decompose.SortCandidates | docs/js/model_decomposition.js:368 | `candidates.sort(...)` returns the candidates ascending by score, as a permutation |
| Decompose.TakeBest | docs/js/model_decomposition.js:377-378 | up to 5 candidates are popped, best first; what is taken and what remains partition the candidates, and nothing left scores above anything taken; fewer than 5 candidates is a failure (popping `undefined`) |
| Decompose.TakenAreBest | docs/js/model_decomposition.js:368-378 | popping from the end of a sorted list takes non-increasing scores, none below anything that remains |
| Decompose.RenderPath | docs/js/model_decomposition.js:220-257 | the strokes `renderPath` hands to `MPState.addStroke`, in order, are those of `RenderPathSpec`: nothing for fewer than two points, else `path[i-1] -> path[i]` for i = 1..n-2 |
| Decompose.SegmentsAt | docs/js/model_decomposition.js:246-255 | stroke j joins point j to point j + 1 |
| Decompose.RenderPathDropsLast | docs/js/model_decomposition.js:246 | as written, n >= 2 points give n - 2 strokes, the corrected strokes without the last one |
| Decompose.RenderTwoPointsDrawsNothing | docs/js/model_decomposition.js:246 | a two-point path draws nothing |
| Decompose.RenderPathFixedChain | docs/js/model_decomposition.js:240-255 | the corrected strokes form one chain from the first point to the last |
| MP.Initial | docs/js/mp.js:36-65 | a fresh panel shows and records nothing, with empty arrays |
| MP.InBoundsExamples | docs/js/mp.js:70-76 | `inBounds` holds on the canvas corners and fails just outside them |
| MP.Slice | docs/js/mp.js:102-106 | `slice(0, k)` is the first k entries, or all of them |
| MP.At | docs/js/mp.js:143 | reading an array past its end gives `undefined` |
| MP.CurrentStroke | docs/js/mp.js:136-149 | `null` when `strokeIndex == 0`, else entry `strokeIndex - 1` of `state` |
| MP.CurrentSize | docs/js/mp.js:154-164 | `null` when `strokeIndex == 0`, else entry `strokeIndex - 1` of `sizes` |
| MP.CurrentIsLastVisible | docs/js/mp.js:136-170 | in a consistent history the current stroke is the last visible one |
| MP.Push | docs/js/mp.js:91-97 | the five pushes append the stroke, its size and its colour levels |
| MP.Truncate | docs/js/mp.js:100-107 | the five slices cut every array to `strokeIndex` entries |
| MP.AddStrokeSpec | docs/js/mp.js:87-113 | out of bounds nothing changes; in bounds the stroke is pushed, the arrays are cut when `dataIndex > strokeIndex`, and `strokeIndex` and `dataIndex` become old `strokeIndex + 1` |
| MP.AddAtEndAppends | docs/js/mp.js:87-113 | with nothing stepped back over, an in-bounds stroke is appended, shown and current, with its size and colour |
| MP.AddAfterRewindLosesStroke | docs/js/mp.js:100-107 | after stepping back, the arrays end one entry short of `strokeIndex`, so the current stroke and size read `undefined` |
| MP.AddAfterRewindExample | docs/js/mp.js:100-107 | one stroke, stepped back over, then a new one: the new stroke is lost |
| MP.AddStrokeFixed | docs/js/mp.js:100-107 | cutting before pushing keeps the history consistent |
| MP.AddFixedAppends | docs/js/mp.js:87-113 | the corrected `addStroke` shows the old visible strokes plus the new one, which is current with its size and colour |
| MP.AddFixedAgreesAtEnd | docs/js/mp.js:87-113 | where nothing was stepped back over, the corrected and written `addStroke` agree |
| MP.SetStrokeIndexSpec | docs/js/mp.js:115-122 | a negative value gives `null` and no change; otherwise the value is stored and returned |
| MP.SetDataIndexSpec | docs/js/mp.js:124-131 | a negative value gives `null` and no change; otherwise the value is stored and returned |
| MP.ForwardSpec | docs/js/mp.js:399-410 | not generating, `forward` raises `strokeIndex` iff it is below `dataIndex`, and says whether it did |
| MP.ForwardShowsNext | docs/js/mp.js:399-410 | stepping forward keeps the history consistent and shows the next recorded stroke |
| MP.RewindThenForwardRestores | docs/js/mp.js:115-122 | stepping back k strokes and then forward k times restores the history exactly |
| MP.ForwardsReachEnd | docs/js/mp.js:399-410 | once every recorded stroke is shown, `forward` does nothing and answers false |
| MP.ClearSpec | docs/js/mp.js:413-417 | `clear()` zeroes both indexes and empties `state`; the other arrays stay |
| MP.ClearFixed | docs/js/mp.js:413-417 | the corrected `clear()` leaves the panel as new |
| MP.ClearKeepsStaleSize | docs/js/mp.js:413-417 | a stroke of size 1, then clear, then a stroke of size 5: the current size reads 1 |
| MP.ClearFixedThenAdd | docs/js/mp.js:413-417 | after the corrected `clear()` the next stroke is current with its own size |
| MP.MPState.constructor | docs/js/mp.js:36-65 | a new panel has the initial history |
| MP.MPState.AddStroke | docs/js/mp.js:87-113 | the fields change as `AddStrokeSpec` |
| MP.MPState.SetStrokeIndex | docs/js/mp.js:115-122 | the fields and result are those of `SetStrokeIndexSpec` |
| MP.MPState.SetDataIndex | docs/js/mp.js:124-131 | the fields and result are those of `SetDataIndexSpec` |
| MP.MPState.GetCurrentStroke | docs/js/mp.js:136-149 | returns `CurrentStroke` and changes nothing |
| MP.MPState.GetCurrentSize | docs/js/mp.js:154-164 | returns `CurrentSize` and changes nothing |
| MP.MPState.GetVisibleStrokes | docs/js/mp.js:167-170 | the prefix of `state` of length `strokeIndex` |
| MP.MPState.GetVisibleColumns | docs/js/mp.js:173-191 | the prefixes of `sizes` and of the three colour arrays, each of length `strokeIndex` |
| MP.MPState.Forward | docs/js/mp.js:386-411 | the fields and result are those of `ForwardSpec` |
| MP.MPState.Clear | docs/js/mp.js:413-417 | the fields change as `ClearSpec` |
| SvgBuilder.NatStr | docs/js/svgbuilder.js:12-14 | the decimal digits of a number, without leading zeros |
| SvgBuilder.DecimalRoundTrip | docs/js/svgbuilder.js:51-53 | reading the printed digits back gives the number |
| SvgBuilder.HalfStrParts | docs/js/svgbuilder.js:53 | `size / 2` prints as its integer part, then ".5" for odd sizes |
| SvgBuilder.NatHex | docs/js/svgbuilder.js:26 | `toString(16)` writes lower-case hexadecimal digits without leading zeros |
| SvgBuilder.HexPairCases | docs/js/svgbuilder.js:26-38 | each component takes two characters: a byte as its two hex digits, more than a byte as "FF", -15..-1 as a minus sign and one digit |
| SvgBuilder.HexPairsLength | docs/js/svgbuilder.js:21-41 | `rgbToHex` is "#" plus two characters per component |
| SvgBuilder.HexPairsAt | docs/js/svgbuilder.js:25-39 | component i occupies characters 2i and 2i+1 after the "#" |
| SvgBuilder.HexColourRoundTrip | docs/js/svgbuilder.js:21-41 | a colour of bytes reads back from its hex string, component by component |
| SvgBuilder.RgbToHex | docs/js/svgbuilder.js:21-41 | the loop's result is "#" followed by each component's pair in order |
| SvgBuilder.HexSpecSnoc | docs/js/svgbuilder.js:25-39 | one more component appends its pair |
| SvgBuilder.ElementKind | docs/js/svgbuilder.js:49-68 | a stroke starting where it ends becomes one `<circle>` with cx, cy, r = size/2 and fill; any other becomes one `<line>` with x1, y1, x2, y2, stroke, stroke-width and stroke-miterlimit="10" |
| SvgBuilder.SVGBuilder.constructor | docs/js/svgbuilder.js:9-15 | the string starts as the XML declaration and the `<svg>` tag with width, height and viewBox |
| SvgBuilder.SVGBuilder.AddStroke | docs/js/svgbuilder.js:43-69 | appends the stroke's element; what was written stays a prefix |
| SvgBuilder.SVGBuilder.Finish | docs/js/svgbuilder.js:71-74 | appends `</svg>` and a newline and returns the whole string |
| Masks.AdjacencySymmetric | docs/js/maskutils.js:503-513 | `isAdjacent` is irreflexive and symmetric |
| Masks.NeighboursAdjacent | docs/js/maskutils.js:216-243 | the eight neighbours tried are exactly the points adjacent to the cell |
| Masks.PushesHas | docs/js/maskutils.js:216-243 | the first k guarded pushes push exactly the open in-grid neighbours among the first k |
| Masks.OpenNeighboursExact | docs/js/maskutils.js:216-243 | one step pushes exactly the open 8-neighbours inside the grid |
| Masks.EmptyFrontierClosed | docs/js/maskutils.js:202-248 | with the stack empty, no nonzero neighbour of a cell labelled in this pass is unvisited |
| Masks.PopLabelled | docs/js/maskutils.js:203-247 | popping a cell already labelled pushes nothing new and keeps the stack invariants |
| Masks.PopFreshCounts | docs/js/maskutils.js:246-247 | labelling a fresh cell adds one to the label's cell count and one to its score |
| Masks.PopFreshStackOk | docs/js/maskutils.js:203-246 | after a fresh pop and its pushes, every stacked cell is a nonzero cell that was unvisited |
| Masks.PopFreshFrontier | docs/js/maskutils.js:203-246 | after a fresh pop, every open neighbour of a labelled cell is on the stack |
| Masks.WithinFlags | docs/js/maskutils.js:105-119 | the `withinDiff` mask up to flat position n: n entries, each 0 or 1 |
| Masks.WithinFlagsAt | docs/js/maskutils.js:115-117 | entry i is 1 exactly when its pixel's distance is below the tolerance |
| Masks.WithinFlagsPartition | docs/js/maskutils.js:95-156 | every entry is 0 or 1, so ones plus zeros is the pixel count |
| Masks.EdgeAtMeaning | docs/js/maskutils.js:406-462 | a pixel is an inner edge iff it is positive and one of its four neighbours is outside the grid or 0 |
| Masks.EdgeFlags | docs/js/maskutils.js:406-462 | the `innerEdges` output up to flat position n: n entries, each 0 or 1 |
| Masks.EdgeFlagsAt | docs/js/maskutils.js:406-462 | entry i is 1 exactly when its pixel is an inner edge |
| Masks.EdgeFlagsOfZeros | docs/js/maskutils.js:406-462 | an all-zero mask has no inner edge |
| Masks.LabelKeepsClosed | docs/js/maskutils.js:281-285 | labelling one component from a fresh seed keeps every label closed under adjacency |
| Masks.RecolouredCounts | docs/js/maskutils.js:246-247 | the recolouring adds cells only to the new label |
| Masks.ScanZero | docs/js/maskutils.js:275-279 | a zero cell becomes EMPTY and adds one to `scores[0]`, keeping the scan invariant |
| Masks.ScanLabelled | docs/js/maskutils.js:281-287 | a nonzero cell already labelled is passed over |
| Masks.ScanFresh | docs/js/maskutils.js:281-286 | a fresh seed gets label `labels`, with `scores[labels] = 0` first, and the next label is one higher |
| Masks.ScanDone | docs/js/maskutils.js:256-298 | at the end of the scan no cell is unvisited |
| Masks.PadEmitted | docs/js/maskutils.js:535-547 | closing a chain that ends at `prevCoord` emits a path of two or more points; taking the padding off gives the chain back |
| Masks.JoinedSnoc | docs/js/maskutils.js:541 | emitting a path appends its points to the points emitted |
| Masks.ChainSnoc | docs/js/maskutils.js:561-563 | extending a chain by a point adjacent to its end keeps a chain |
| Masks.Tracer.constructor | docs/js/maskutils.js:466-478 | no previous point, an empty path, no paths and an empty stack |
| Masks.Tracer.BindPaths | docs/js/maskutils.js:516-518 | the tracer writes to a fresh empty paths array |
| Masks.Tracer.Init | docs/js/maskutils.js:521-527 | a new path holding only `coord`, which is `prevCoord` and the only stack entry, direction 0 |
| Masks.Tracer.EndPath | docs/js/maskutils.js:535-547 | the current path is emitted, padded with `prevCoord` when it has one point; with a coordinate a new path starts there |
| Masks.Tracer.UpdatePath | docs/js/maskutils.js:552-564 | an adjacent point extends the path; any other point ends it and starts `[next]`; either way it becomes `prevCoord` |
| Masks.LoopOrigins | docs/js/maskutils.js:648-664 | the points one loop feeds, the seed twice and then its popped points, are all seeds or popped points |
| Masks.ZeroFlat | docs/js/maskutils.js:722-724 | zeroing a range of flat positions only ever sets entries to 0 |
| Masks.CullFixedClearsPixel | docs/js/maskutils.js:722-724 | the culling evidently intended, around the stripe's own row, clears the stripe pixel when the radius is at least 1 |
| Masks.CullAsWrittenCutsRun | docs/js/maskutils.js:722-724 | on an 8 x 4 mask of ones, culling as written at (5, 0) keeps (5, 0) and zeroes (6, 0), the next pixel of the run; the intended culling does the opposite |
| Masks.BoxTight | docs/js/maskutils.js:677-704 | the bounding box contains every positive pixel; when there is one, each bound is attained; with none it is (width, 0, height, 0) |
| Masks.MaskUtils.constructor | docs/js/maskutils.js:13-26 | a `MaskUtils` of the given shape with a fresh scratch label grid of `width * height` cells |
| Masks.MaskUtils.PushIfValidMut | docs/js/maskutils.js:165-171 | pushes [ix, iy] exactly when the mask is nonzero and the label unvisited there |
| Masks.MaskUtils.PushNeighbours | docs/js/maskutils.js:216-243 | the eight guarded pushes add the open in-grid neighbours in the order N, NE, E, SE, S, SW, W, NW |
| Masks.MaskUtils.PushWhen | docs/js/maskutils.js:220-243 | a guarded push extends the pushes of the first k neighbours by neighbour k |
| Masks.MaskUtils.LabelComponentMut | docs/js/maskutils.js:188-251 | only unvisited nonzero cells change, to the label; the seed is labelled; no nonzero neighbour of a labelled cell stays unvisited; every cell it labels is 8-connected to the seed through nonzero pixels; the score rises by at least the number of cells labelled |
| Masks.MaskUtils.PopAndLabel | docs/js/maskutils.js:203-247 | one pop: the popped cell gets the label, its fresh nonzero neighbours are pushed in the order of lines 220-243, and the flood invariant (including connection to the seed) is kept; a cell popped twice changes nothing |
| Masks.PopStep | docs/js/maskutils.js:202-247 | the flood invariant survives a pop and push; a fresh pop moves one cell from unvisited to the label |
| Masks.ConnectedSymmetric | docs/js/maskutils.js:216-243 | 8-connection through nonzero pixels is symmetric |
| Masks.ConnectedTransitive | docs/js/maskutils.js:216-243 | 8-connection through nonzero pixels is transitive |
| Masks.LabelKeepsConnected | docs/js/maskutils.js:281-286 | a fresh flood from a new seed keeps every label's pixels pairwise connected |
| Masks.LabelsAreComponents | docs/js/maskutils.js:256-298 | when every nonzero pixel is labelled, labels are closed under adjacency and each label's pixels are connected, two nonzero pixels share a label iff they are 8-connected |
| Masks.MaskUtils.LabelComponents | docs/js/maskutils.js:256-298 | zero pixels are EMPTY and counted in `scores[0]`; every nonzero pixel has a label in 1..labels-1 and none is unvisited; two nonzero pixels share a label iff they are 8-connected through nonzero pixels, so `labels - 1` is the number of components; each label has at least one pixel and at most its score |
| Masks.MaskUtils.ScanCell | docs/js/maskutils.js:272-287 | one scan step keeps the scan invariant and closed labels |
| Masks.MaskUtils.WithinDiff | docs/js/maskutils.js:95-122 | a fresh mask equal to `WithinFlags`: 1 exactly where the distance is below the tolerance |
| Masks.MaskUtils.WithinCell | docs/js/maskutils.js:107-117 | one cell of the mask is written per its distance |
| Masks.MaskUtils.WithoutDiffCount | docs/js/maskutils.js:130-156 | the count is the number of zeros of the `withinDiff` mask, the pixels at or beyond the tolerance |
| Masks.MaskUtils.InnerEdges | docs/js/maskutils.js:406-462 | returns `arr`; the output holds 1 exactly at the inner edges of the old `arr`, or, when the two are one array, all zeros |
| Masks.MaskUtils.EdgeColumn | docs/js/maskutils.js:413-459 | one column of the output holds 1 exactly at the column's inner edges; the rest stays zero |
| Masks.MaskUtils.EdgeCell | docs/js/maskutils.js:423-458 | one cell of the output is set when its pixel is an inner edge |
| Masks.MaskUtils.IsInnerEdge | docs/js/maskutils.js:423-458 | the tests of one cell, in their order, decide `EdgeAt` |
| Masks.MaskUtils.EstimateWidth | docs/js/maskutils.js:313-368 | the width is in 1..MAX_W and never MAX_W - 1 (the loop stops at MAX_W - 1 before the final `+ 1`); every tried width up to it has error within the threshold; the next one exceeds it |
| Masks.MaskUtils.LoopTrace | docs/js/maskutils.js:625-668 | every emitted path has two or more points, adjacent in turn or one point doubled; every cell of value 1 is among the emitted points; every emitted point is a seed or a popped point |
| Masks.MaskUtils.TraceCell | docs/js/maskutils.js:645-665 | one scan step keeps the tracing invariant |
| Masks.MaskUtils.FeedPoints | docs/js/maskutils.js:650-660 | each popped point goes through `updatePath` and the visited mark; the points fed grow by exactly the popped points, in order, and every visited cell is among them |
| Masks.MaskUtils.TraceLoop | docs/js/maskutils.js:650-664 | one loop feeds the seed and its popped points, marks them visited and ends with the tracer idle |
| Masks.MaskUtils.CullColumnMut | docs/js/maskutils.js:722-724 | the culling as written: the flat positions of `set(x, iy)` for iy in x - radius .. x + radius - 1 become 0 |
| Masks.MaskUtils.CullRowMut | docs/js/maskutils.js:760-762 | row y, columns x - radius .. x + radius - 1 inside the grid become 0; nothing else changes |
| Masks.MaskUtils.RowCellWrite | docs/js/maskutils.js:761 | `set(ix, y, 0)` lands on (ix, y) iff that cell is in the grid |
| Masks.MaskUtils.RowRun | docs/js/maskutils.js:720-733 | the x-major run from a positive pixel ends at the last pixel of a run positive in the original mask; only zeroes are written |
| Masks.MaskUtils.ColumnRun | docs/js/maskutils.js:758-771 | the y-major run ends at the last pixel of a run positive in the original mask; with radius >= 1 nothing positive remains up to its end |
| Masks.MaskUtils.BoundingBox | docs/js/maskutils.js:677-704 | the box is `BoxOf` the whole mask |
| Masks.MaskUtils.StripeRows | docs/js/maskutils.js:714-742 | every path is two points on one row, start <= end, all pixels between positive in the original mask; only zeroes are written; every originally positive pixel lies on a path or in the culling span of a pixel of one |
| Masks.MaskUtils.RowCell | docs/js/maskutils.js:720-744 | one step of the x-major scan: the paths stay row stripes of the original mask, only zeroes are written, and every positive pixel passed and every zeroed cell stays covered by a path |
| Masks.RowsSweptRun | docs/js/maskutils.js:723-743 | the path `[(x, y), (x1, y)]` of a run covers the pixels it passes and the cells its culling zeroes, so coverage holds up to x1 |
| Masks.MaskUtils.ColumnCell | docs/js/maskutils.js:752-776 | one step of the y-major scan: the paths stay column stripes of the original mask, only zeroes are written, for radius >= 1 nothing positive is left before the scan position, and every positive pixel passed and every zeroed cell stays covered by a path |
| Masks.ColumnsSweptRun | docs/js/maskutils.js:755-775 | the path `[(x, y), (x, y1)]` of a run covers the pixels it passes and the cells its culling (within `radius` columns, rows y..y1) zeroes, so coverage holds up to y1 |
| Masks.MaskUtils.StripeColumns | docs/js/maskutils.js:748-780 | every path is two points on one column, start <= end, all pixels between positive in the original mask; every originally positive pixel lies within `radius` columns of a path's column, between its ends; with radius >= 1 no positive pixel remains |
| Masks.MaskUtils.StripMaskMut | docs/js/maskutils.js:674-782 | x-major row stripes iff box height <= box width, else column stripes; every originally positive pixel is covered by a path with the radius `(brushWidth >> 1) + 1`; the column stripes clear the mask for a brush width in 0..2^31-1 |

## Left out

- `fakeGaussianMut` (maskutils.js:47-93) is not modelled: its weights are floating point, it reads past the last row and column, and its test `y + 2 < width` uses the width where the height is meant.
- `_Tracer.traverseMut` (maskutils.js:591-612) is a parameter, `trav(s)`: the points the stack pops after the seed s. Each popped point is marked visited. As written, the method pushes raw offsets as coordinates and writes to undeclared globals.
- `_Tracer.isValid` and the traversal tables (`traversalIdx`, `traversalOrder`) are not modelled, since only the traversal uses them.
- `centerOf`, the padding of `estimateWidth` and the final re-opening with `w - 0.5` are not modelled. `centerOf` uses `this.padding`, which is undefined, and the re-opening is float morphology.
- Masks.MaskUtils.EstimateWidth: the opening error is the parameter `openingError(w)`, which stands for the morphology module (an external distance transform).
- `fillHolesMut`, `fillInMut` and `getArr` are not modelled. The first is a stub returning its argument, and the others are outside the modelled core.
- Masks.MaskUtils.LabelComponents: labels are unbounded integers. The `Int16Array` output would wrap past 32767 labels.
- Masks.MaskUtils.LabelComponentMut: the optional callback is not modelled, and `scores` is returned as a new map rather than mutated in place.
- Masks.Tracer.EndPath: requires a `prevCoord` when the path has fewer than two points. The code would push `undefined` there, and `loopTrace` never reaches that case.
- Masks.Tracer.EndPath: the emitted path is a value. In the code the same array stays the tracer's `path` after `endPath()` without a coordinate, and `init` replaces it before any further push.
- Masks.MaskUtils.LoopTrace: requires `arr` and the scratch grid to be distinct arrays.
- Masks.MaskUtils.StripeRows: the x-major branch keeps the culling as written, so no clearing property is claimed for it (see Findings). Its contract states coverage instead.
- The console messages (`getMedian`, `renderPath`, `labelComponents`, `medianFilter`) are not modelled.
- The p5 drawing in `renderPath` is not modelled. Decompose.RenderPath returns the strokes it hands to `MPState.addStroke`, in order, and `MPState.addStroke` is modelled separately.
- Decompose.RenderPath: `color` is taken as the three levels the code reads with `color[0..2]` (model_decomposition.js:230) to build the stroke's p5.Color `levels`. The driver's only calls pass no colour (model_decomposition.js:404 and 411). There `color[0]` throws for any path of two or more points, and that failure is not modelled.
- `imageToTensor`'s canvas I/O, `toDataURL`, `render`/`renderBin` and the `imageToStrokes` driver (ColorThief palette, DOM) are not modelled. The broken `stripMask` of model_decomposition.js is also left out.
- ImageUtils.MedianFilter: requires at least k rows when k > 1 is odd. With fewer rows the code reads pixels outside the image.
- ImageUtils.MedianFilter: a given `outputArr` is not modelled; the output is always the fresh 255-filled image.
- ImageUtils.ConvertColorSpace: a given `outputArr` is not modelled; the output is always the fresh 255-filled image.
- MedianBin.MedianIntBin.SubValue: the count is an unbounded integer. `bin[x]` wraps modulo 2^32 (`Bump`), but `count` is a plain number in the code too.
- MP: only the non-generating branch of `forward` is modelled. The rest of `MPState` (jpMode, rotate, mirror and Warhol modes, back, export, save and load, toggles) is UI.
- `isAdjacent`'s inputs are integer pairs. Coordinates are never fractional in the modelled code.
- Floating point is modelled as `real`, with no rounding. The colour distance and the score threshold `0.02 * width * height` are modelled this way.
- Decompose.BlendWithWhite: `Math.round` of `alpha / 255` is modelled by its result on bytes, 0 up to 127 and 1 from 128.

## Findings

| source | as written | input that shows it | evidently intended | confidence | as-written member | corrected member |
|---|---|---|---|---|---|---|
| docs/js/medianbin.js:38 | `offset >= this.bin` compares with the whole array, NaN for two bins or more, so `incrMedian` never leaves its bin | values 0, 0, 1 indexed, then add 1: the cursor sits past bin 0 and `getMedian` says 0 where the median is 1 | compare with `this.bin[this.median]` | not executed | MedianBin.IncrNeverAdvances, MedianBin.AddLosesMedian | MedianBin.IncrFixedStepsUp, MedianBin.AddFixedKeepsCentred |
| docs/js/medianbin.js:137-138 | `binVal` is read once and the loop test is `<`, so the scan does not stop at the bin holding the target | values {1, 1, 1}: the cursor ends at bin 2 of 2 with offset -2 | refresh `binVal = bin[median]` each step and pass a bin only when `acc + binVal <= target` | not executed | MedianBin.IndexOvershoots | MedianBin.IndexFixedCentres |
| docs/js/medianbin.js:97-101 | with an odd count, removing the median's own value also moves the cursor up | {1, 1, 1} with the cursor in bin 1, remove 1: the cursor leaves the last bin | for x == median, step down then up only when the cursor falls off its bin | not executed | MedianBin.SubOwnValueOvershoots | MedianBin.SubFixedKeepsCentred |
| docs/js/imageutils.js:227-237 | row y - r is removed when pixel y is written, so the window's own top row is missing | any image with y >= r: `count` is short by the window's width | remove row y - r - 1, once the window is full | not executed | MedianWindow.HeldWindow, MedianWindow.TopRowDropped | MedianWindow.FixedWindow, MedianWindow.FixedWritesMedian |
| docs/js/mp.js:100-107 | after stepping back, the arrays are cut after the push, which drops the new stroke | one stroke, `setStrokeIndex(0)`, then `addStroke`: the current stroke reads `undefined` | cut to `strokeIndex` before pushing | not executed | MP.AddAfterRewindLosesStroke, MP.AddAfterRewindExample | MP.AddStrokeFixed, MP.AddFixedAppends |
| docs/js/mp.js:413-417 | `clear()` empties `state` but not `sizes` or the colour arrays | a stroke of size 1, clear, a stroke of size 5: the current size reads 1 | empty all five arrays | not executed | MP.ClearKeepsStaleSize | MP.ClearFixed, MP.ClearFixedThenAdd |
| docs/js/model_decomposition.js:246 | the loop stops at `i < pathLength - 1`, so the last point is never reached | a two-point path draws nothing | loop to `i < pathLength` | not executed | Decompose.RenderPathDropsLast, Decompose.RenderTwoPointsDrawsNothing | Decompose.RenderPathFixedChain |
| docs/js/maskutils.js:722-724 | the x-major culling writes `set(x, iy, 0)` for iy around x, not around the stripe's row y | 8 x 4 mask of ones, culling at (5, 0), radius 1: (5, 0) stays and (6, 0) is zeroed, ending the run early | iy in y - radius .. y + radius - 1 | not executed | Masks.MaskUtils.CullColumnMut, Masks.CullAsWrittenCutsRun | Masks.CullFixedClearsPixel |
