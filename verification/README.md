# remove-bg segmentation, modelled in Dafny

The model covers the background-removal pass of the remove-bg web worker (`worker.js`) and the few pure helpers of the page script (`script.js`). The worker receives an RGBA pixel buffer of `4*w*h` bytes. It runs these steps:

- quantises the colour of every interior pixel to multiples of 8 and counts them in a Map;
- sorts the Map by count, taking the 3 most frequent colours as background and the next 7 as foreground;
- builds a binary Sobel edge map over the interior;
- walks the buffer in 10,000-pixel chunks, classifying each pixel by its nearest colour set with an edge bonus for the foreground, writing only the alpha byte, setting one of two masks and posting one progress percentage per chunk;
- gives every pixel on the fg/bg mask boundary, at least two pixels from the frame, the rounded 5x5 weighted average of the alphas of a snapshot;
- posts one completion message with the buffer.

The page script adds:

- a 3x3 window gather and a Sobel strength (`getSurroundingPixels`, `calculateEdgeStrength`);
- the preview-size clamp of `showPreview`;
- `getFont`;
- the hit test and drag arithmetic of the text tool.

`getFont` has no inverse in the page script. `TextTool.ParseFont` is a reader written for the model, so that the font string can be shown to keep every field it is built from.

Pixel buffers are `seq<Byte>` with `Byte = 0..255`, and masks are `seq<bool>`. `Math.sqrt` is a parameter `sqrt: int -> real`. Three assumptions about it are used:

- it is non-negative (`NonNegativeRoot`), throughout;
- it is strictly increasing (`IncreasingRoot`), for the nearest-colour results;
- `sqrt(0) == 0.0`, for the uniform-window results `EdgeMap.UniformEdgeValue`, `EdgeMap.UniformWindowNoEdge` and `EdgeStrength.UniformStrength`.

The order-dependent JavaScript Map is a sequence of buckets in first-insertion order. `Array.prototype.sort`, which is stable, is a stable insertion sort.

The worker's segmentation has three parts:

- the edge map is a plain 3x3 Sobel magnitude compared with one threshold;
- the colour sets are the ten most frequent quantised interior colours of a histogram;
- the border is smoothed in a single pass over a snapshot.

Modules and files:

| file | module | source |
|---|---|---|
| pixels.dfy | `Optional`, `Pixels` | shared: buffer layout, neighbour addressing, `Math.round` |
| decimal.dfy | `Decimal`, `ColorKey` | the `"r,g,b"` string keys of the colour Map |
| histogram.dfy | `Histogram` | the counting loops of `analyzeImage` |
| countsort.dfy | `CountSort` | the count-descending sort of `separateColors` |
| colorsets.dfy | `ColorSets` | `analyzeImage`, `separateColors`, `isEdgePixel` |
| edgemap.dfy | `EdgeMap` | `createEdgeMap` |
| classify.dfy | `Classification` | `calculateColorScore` and the decision in `processChunkEnhanced` |
| chunks.dfy | `Chunks` | the chunk and progress loop of `onmessage`, `processChunkEnhanced` |
| refine.dfy | `Smoothing` | `refineEdges`, `isOnBorder` |
| worker.dfy | `Worker` | `onmessage` as a whole |
| sobel.dfy | `EdgeStrength` | `getSurroundingPixels`, `calculateEdgeStrength` |
| script.dfy | `Preview`, `TextTool` | `showPreview` size clamp, `getFont`, mouse handlers |

## Model

| member | source | states |
|---|---|---|
| Histogram.Quantize | worker.js:58 | the bucket of a channel is a multiple of 8 at most the channel and more than the channel minus 8 |
| Histogram.QuantizeUnique | worker.js:58 | that bucket is the only multiple of 8 in that range |
| Histogram.InteriorKeysLength | worker.js:52-53 | the scan visits exactly (w-2)(h-2) pixels, none when a side is below 3 |
| Histogram.IndexOf | worker.js:59 | the lookup of `colorStats.get` finds the bucket of a key, or reports it absent exactly when the key is not in the Map |
| Histogram.BuildCounts | worker.js:59 | the Map built by repeated `set(key, get(key) + 1)` has one bucket per distinct key, holding that key's number of occurrences |
| Histogram.DistinctKeysCard | worker.js:59 | a Map with distinct keys has as many entries as distinct keys |
| Histogram.InteriorHistogram | worker.js:52-59 | the Map of the scan counts every interior pixel once, and the counts sum to (w-2)(h-2) |
| Histogram.AddNewCounts | worker.js:59 | `set(key, 1)` for a key not yet in the Map appends a bucket and keeps the Map counting the keys seen so far |
| Histogram.AddExistingCounts | worker.js:59 | `set(key, get(key) + 1)` for a key in the Map bumps its bucket in place and keeps the Map counting the keys seen so far |
| Histogram.AddCounts | worker.js:59 | one `set` keeps the Map in step with the keys seen so far, whether or not the key was new |
| Histogram.CountRow | worker.js:53-59 | the inner loop adds row y's interior keys to the Map in column order |
| Histogram.CountColors | worker.js:52-59 | the two loops produce the Map of the interior keys, whose counts match the occurrences and sum to (w-2)(h-2) |
| CountSort.Insert | worker.js:83-84 | inserting into a count-descending list keeps it count-descending, makes it one longer, and puts the larger of the two leading counts first |
| CountSort.InsertPermutes | worker.js:83-84 | insertion adds exactly the one entry: the result is a permutation of the list plus that entry |
| CountSort.InsertWithCount | worker.js:83-84 | the inserted entry goes behind every entry of the same count |
| CountSort.InsertDistinct | worker.js:83-84 | inserting an entry with a new key into a list with one entry per key keeps one entry per key |
| CountSort.InsertKeys | worker.js:83-84 | insertion adds exactly the new entry's key to the key set |
| CountSort.Sort | worker.js:83-84 | the sorted entries are count-descending and a permutation of the Map's entries |
| CountSort.SortIsStable | worker.js:83-84 | among entries of equal count the sorted order is the Map's insertion order |
| CountSort.SortDistinct | worker.js:83-84 | sorting keeps one entry per key and the same key set |
| ColorSets.SeparateColors | worker.js:87-92 | background = the keys at ranks 0..2, foreground = the keys at ranks 3..9, sized min(3, n) and max(0, min(10, n) - 3) |
| ColorSets.AnalyzeImage | worker.js:47-70 | `analyzeImage` returns the colour sets of the sorted interior histogram |
| ColorSets.SortedHistogram | worker.js:83-84 | the sorted Map lists each distinct interior colour once with its count, largest first |
| ColorSets.RankedMembers | worker.js:83-92 | every ranked key occurs in the image and every colour of the image is ranked |
| ColorSets.SeparateShape | worker.js:87-92 | sizes min(3, D) and max(0, min(10, D) - 3), an empty foreground when D < 4, both sets drawn from the image, disjoint and duplicate-free |
| ColorSets.RankPosition | worker.js:87-92 | rank t < 3 lands at background index t, and rank 3 <= t < 10 at foreground index t - 3 |
| ColorSets.SeparateRanks | worker.js:83-92 | background colours are in descending frequency, and each is at least as frequent as each foreground colour |
| ColorSets.BackgroundDominates | worker.js:83-88 | no colour outside the background set is more frequent than a background colour |
| ColorSets.ForegroundDominates | worker.js:83-92 | no colour in neither set is more frequent than a foreground colour |
| ColorSets.SeparateRanksAll | worker.js:83-92 | every frequency promise of the two sets at once: background descending, background over foreground, and neither set beaten by an unchosen colour |
| ColorSets.PermutedCounts | worker.js:83-84 | reordering the Map's entries keeps each entry's count equal to its key's number of occurrences |
| ColorSets.SelectColorsProperties | worker.js:47-95 | all the colour-set promises above, stated for the image's interior pixels |
| ColorSets.IsEdgePixel | worker.js:72-80 | true exactly when some channel's summed contrast with the pixel below and the pixel to the right exceeds 30 |
| ColorKey.Split | worker.js:88 | `split(',')` returns at least one part and no part contains a comma |
| ColorKey.SplitJoin | worker.js:88 | splitting a comma-joined list of comma-free parts gives the parts back |
| ColorKey.DecodeEncodeKey | worker.js:88 | the string key of a colour reads back through `split(',').map(Number)` as its three channels |
| ColorKey.EncodeKeyInjective | worker.js:58-59 | different quantised colours get different keys, so a Map entry per key is a Map entry per colour |
| Decimal.NatToString | worker.js:58 | the decimal numeral is non-empty, all digits, with no leading zero except for 0 |
| Decimal.DigitsOfNatToString | worker.js:88 | `Number` of the numeral of n is n |
| Decimal.NatToStringInjective | worker.js:58 | distinct numbers have distinct numerals |
| EdgeMap.Window | worker.js:206-218 | the 3x3 window has nine entries, row by row |
| EdgeMap.WindowCentre | worker.js:201 | the centre of the window is the pixel itself |
| EdgeMap.CreateEdgeMap | worker.js:195-226 | one byte per pixel, each 0 or 255, 0 off the interior, and 255 on an interior pixel exactly when its summed Sobel magnitude exceeds 30 |
| EdgeMap.EdgeMapFrame | worker.js:199-200 | the first and last rows and columns stay 0 |
| EdgeMap.UniformGradient | worker.js:206-218 | both Sobel responses vanish on a window of one colour |
| EdgeMap.UniformEdgeValue | worker.js:220 | a window of one colour has edge value 0 |
| EdgeMap.UniformWindowNoEdge | worker.js:195-226 | a pixel whose window is one colour is never an edge |
| Classification.NearestSq | worker.js:140-147 | the smallest squared distance to a colour of the set, absent exactly for an empty set |
| Classification.MinRoot | worker.js:139-147 | `minDiff` after the loop is non-negative and at most the distance to every colour |
| Classification.ScoreOf | worker.js:138-149 | the score is in [0, 1] and is 0 exactly for an empty set |
| Classification.MinRootIsRootOfNearest | worker.js:139-147 | with an increasing root, `minDiff` is the root of the smallest squared distance |
| Classification.ScoreOrderOfRoots | worker.js:139-148 | one non-empty set outscores another exactly when its `minDiff` is smaller |
| Classification.ScoreOrder | worker.js:148 | one non-empty set outscores another exactly when its nearest colour is strictly nearer |
| Classification.ScoreOfNearest | worker.js:138-149 | the score is 1 / (1 + distance to the nearest colour) |
| Classification.FadeAlphaValue | worker.js:124-126 | the faded edge alpha `round(255 * (1 - v/255))` is 255 - v |
| Classification.Classify | worker.js:115-134 | foreground exactly when the background does not win; foreground alpha 255; background alpha 255 - v on an edge (v > 0) and 0 off the edges (v = 0) |
| Classification.BeatsSmallerBonus | worker.js:116-119 | if the background wins against a larger edge bonus it wins against a smaller one |
| Classification.BinaryAlpha | worker.js:121-133 | with a binary edge map every written alpha is 0 or 255 |
| Classification.NonEdgeNearest | worker.js:111-133 | off the edges a pixel is opaque foreground exactly when its nearest foreground colour is at least as near as its nearest background colour, so ties go to the foreground |
| Classification.EmptyForeground | worker.js:111-129 | no foreground colours but some background colours make every pixel background with alpha 0 or 255 - v |
| Classification.EmptyBackground | worker.js:111-134 | no background colours make every pixel opaque foreground |
| Classification.EdgeFavoursForeground | worker.js:115-119 | a pixel that is background with a stronger edge is background with a weaker one |
| Chunks.ChunkPartition | worker.js:20-27 | every byte lies in exactly one chunk `[i, min(i + 40000, len))` |
| Chunks.ChunkBounds | worker.js:20-27 | every chunk is non-empty, inside the buffer, and starts and ends on a pixel boundary |
| Chunks.ChunkPixelIndex | worker.js:102-104 | `y * width + x` computed from byte offset i is pixel i / 4 |
| Chunks.ClassifiedStep | worker.js:128-132 | writing one pixel's alpha extends the classified range by that pixel |
| Chunks.SetAlphasSameOutcome | worker.js:106-119 | the decision reads only colour bytes, so earlier alpha writes do not change later decisions |
| Chunks.ClassifiedCompose | worker.js:20-32 | classifying [a, b) after [lo, a) is classifying [lo, b) |
| Chunks.MarkedCompose | worker.js:129-133 | marking [a, b) after [lo, a) is marking [lo, b) |
| Chunks.ProcessChunk | worker.js:97-136 | only the alpha bytes of the chunk's pixels change, each to its classified alpha, and each pixel of the chunk joins the fg or the bg mask according to its decision |
| Chunks.ClassifyPixel | worker.js:101-134 | one pixel of the chunk gets its classified alpha and joins the mask its decision names; the classified range grows by that pixel |
| Chunks.ClassifiedAlphaBinary | worker.js:121-132 | with the image's own edge map every alpha written by classification is 0 or 255 |
| Chunks.ClassifyAllPixel | worker.js:101-134 | after classification each pixel keeps its colour and carries its classified alpha |
| Chunks.ProgressReports | worker.js:35-37 | one progress value per chunk |
| Chunks.ProgressInRange | worker.js:36 | every progress value is in [0, 100] |
| Chunks.ProgressMonotone | worker.js:35-36 | progress values never decrease |
| Chunks.ProgressLast | worker.js:35-37 | the last progress value of a non-empty buffer is 100 |
| Chunks.ProgressReportsProperties | worker.js:20-38 | one report per chunk, each in [0, 100], non-decreasing, the last one 100 |
| Chunks.ClassifyNextChunk | worker.js:20-32 | one `processChunkEnhanced` call on chunk k extends the classified pixels and both masks to the end of that chunk |
| Chunks.ReportProgress | worker.js:35-37 | after chunk k the running count is (k + 1) chunks and the messages so far are the first k + 1 progress values |
| Chunks.ProgressStep | worker.js:35-36 | the running count `processedPixels += chunkSize` gives the k-th chunk's percentage |
| Chunks.ChunkLoopExit | worker.js:20 | the loop runs once per chunk |
| Chunks.MarkedAll | worker.js:129-133 | starting from zeroed masks, every pixel ends in exactly one of them, the one its decision names |
| Chunks.ClassifyChunks | worker.js:10-38 | the chunk loop classifies every pixel once, leaves each pixel in exactly one mask according to its decision, and reports the progress sequence |
| Smoothing.MaskWindow | worker.js:186-190 | the 3x3 window of a mask has nine entries, row by row |
| Smoothing.MaskWindowEntry | worker.js:188 | `(y + dy) * width + (x + dx)` addresses the window entry (dx, dy) |
| Smoothing.IsOnBorder | worker.js:181-193 | the loop decides the border test: in a mask, and some 3x3 neighbour with a different fg value |
| Smoothing.UnmaskedNotOnBorder | worker.js:183 | a pixel in neither mask is never on the border |
| Smoothing.BorderNeighbour | worker.js:185-192 | a masked pixel is on the border exactly when one of its neighbours differs in the fg mask; the bg mask is not compared |
| Smoothing.AlphaWindow | worker.js:165-169 | the 5x5 snapshot alpha window has 25 entries |
| Smoothing.Weight | worker.js:168 | every weight `1 / (1 + sqrt(dx*dx + dy*dy))` is positive |
| Smoothing.WeightSum | worker.js:170 | the sum of at least one weight is positive, so the division is defined |
| Smoothing.WeightedSumAbove | worker.js:161-172 | a positively weighted sum of values of at least lo is at least lo times the weight sum |
| Smoothing.WeightedSumBelow | worker.js:161-172 | a positively weighted sum of values of at most hi is at most hi times the weight sum |
| Smoothing.WeightedAverageBetween | worker.js:175 | the rounded weighted average of values in [lo, hi] is in [lo, hi] |
| Smoothing.SmoothedBetween | worker.js:161-175 | the new alpha lies between the smallest and largest snapshot alpha of the window |
| Smoothing.SmoothedUniform | worker.js:161-175 | a window of one alpha keeps that alpha |
| Smoothing.AlphaWindowEntry | worker.js:167-169 | `((y + dy) * width + (x + dx)) * 4 + 3` is the window entry (dx, dy) and its weight is the window's weight |
| Smoothing.AddEntry | worker.js:167-170 | one inner step adds the snapshot alpha of entry (dx, dy) times its weight to `alphaSum` and the weight to `weightSum` |
| Smoothing.WindowRow | worker.js:166-171 | the inner dx loop adds one row of five terms to both sums |
| Smoothing.WindowAverage | worker.js:161-175 | the two inner loops compute the rounded weighted average of the window |
| Smoothing.RefineFrame | worker.js:151-179 | every colour byte is kept, and the alpha is kept unless the pixel is inset by 2 and on the border |
| Smoothing.RefineUnmasked | worker.js:160 | a pixel in neither mask keeps its alpha |
| Smoothing.RefineBetween | worker.js:151-179 | a refined pixel gets the smoothed alpha, between the extremes of its snapshot window |
| Smoothing.ProgressStep | worker.js:155-177 | visiting pixel (x, y) finalises its alpha and leaves later pixels at their snapshot alpha |
| Smoothing.ProgressEnd | worker.js:155 | once y reaches h - 2 every alpha is final |
| Smoothing.RefinePixel | worker.js:158-176 | a pixel on the border gets the smoothed alpha of the snapshot, any other keeps its own; no other byte changes |
| Smoothing.RefineEdges | worker.js:151-179 | the pass, reading from the snapshot, produces the refined buffer |
| Worker.Segment | worker.js:1-45 | one progress message per chunk in order, then exactly one completion message carrying the segmented buffer |
| Worker.SegmentedKeepsColors | worker.js:128-175 | the pass writes only alpha bytes |
| Worker.MasksPartition | worker.js:129-133 | after classification each pixel is in exactly one of the two masks |
| Worker.SegmentedAlpha | worker.js:155-156 | a pixel within 2 of the frame keeps its classified alpha |
| EdgeStrength.Surrounding | script.js:170-183 | the window has exactly nine entries |
| EdgeStrength.GetSurroundingPixels | script.js:170-183 | the nested loops push the nine neighbours in row order |
| EdgeStrength.SurroundingEntry | script.js:172-179 | entry 3(dy+1)+(dx+1) holds the colour at `((y+dy)*width+(x+dx))*4`, and entry 4 is the pixel itself |
| EdgeStrength.SurroundingNeighbor | script.js:174-178 | on an interior pixel the read at offset (dx, dy) is inside the buffer and is the worker's window pixel there |
| EdgeStrength.SurroundingIsWindow | script.js:170-183 | on an interior pixel the gathered window is the worker's Sobel window |
| EdgeStrength.DotIsSobel | script.js:188-201 | the kernel dot products are the worker's Sobel responses |
| EdgeStrength.ChannelStrength | script.js:194-204 | one `forEach` step adds the channel's gradient magnitude |
| EdgeStrength.CalculateEdgeStrength | script.js:186-208 | the strength is the worker's summed Sobel magnitude divided by three |
| EdgeStrength.UniformStrength | script.js:188-207 | nine pixels of one colour give strength 0 |
| EdgeStrength.StrengthMatchesEdgeMap | script.js:186-208 | the strength exceeds 10 exactly where the worker's edge map is 255 |
| Preview.PreviewUnchanged | script.js:53-61 | a size within 300 by 300 is left unchanged |
| Preview.PreviewFits | script.js:53-61 | a positive size ends up positive, within 300 by 300, and on the bound when it was scaled |
| Preview.PreviewAspect | script.js:53-61 | scaling keeps width : height |
| TextTool.ParseGetFont | script.js:446-451 | the font string gives back bold, italic, size and family |
| TextTool.GetFontInjective | script.js:446-451 | two text layers with the same font string have the same style, size and family |
| TextTool.MouseDown | script.js:407-427 | dragging starts exactly on a hit, with the cursor minus the text position as the offset; a miss or a missing layer changes nothing |
| TextTool.MouseMove | script.js:429-440 | while dragging the text sits at the cursor minus the offset; otherwise nothing moves; only the position changes |
| TextTool.MouseUp | script.js:442-444 | dragging stops and the offsets stay |
| TextTool.HitTestBox | script.js:419-422 | the hit test is the box of half-widths textWidth / 2 and fontSize / 2 around the text |
| TextTool.GrabRoundTrip | script.js:419-437 | moving the cursor back to the grab point restores the text position |
| TextTool.DragTranslates | script.js:436-437 | moving the cursor by (ddx, ddy) moves a dragged text by the same amount |
| TextTool.ReleasedDoesNotMove | script.js:430-443 | after release the text no longer moves |

## Left out

- DOM and browser wiring in `script.js` is I/O and UI. This covers file reading, image loading, canvas drawing and export, download links, the progress bar, the HTML of the text tool and `addControls`.
- The worker transport (`onmessage`/`postMessage`): `Worker.Segment` returns the messages as a list.
- IEEE floating point: `Math.sqrt` is a parameter. Non-negativity is assumed throughout. Strict monotonicity is assumed for the nearest-colour results. `sqrt(0) == 0.0` is assumed for `EdgeMap.UniformEdgeValue`, `EdgeMap.UniformWindowNoEdge` and `EdgeStrength.UniformStrength`. Scores, weights and progress are exact reals, and `Math.round` is rounding half up over the reals.
- Classification.IsBackground: the comparison `bgScore > fgScore * (1 + e/255)` stays over the reals for edge pixels. It is reduced to squared distances only off the edges (`NonEdgeNearest`).
- `measureText` is a canvas call. The text width is an input of `MouseDown` and `HitTestBox`.
- The `edgePixels` set of `analyzeImage` is built but never read by `separateColors`. `IsEdgePixel` models the test, and the set is not threaded through.
- `colorThreshold` and `edgeBlend` in `processChunkEnhanced` are unused constants.
- EdgeStrength.GetSurroundingPixels: requires all nine reads inside the buffer. JavaScript would read `undefined` outside it, and the page never calls the function.
- Uint8ClampedArray clamping: every value written is already an integer in [0, 255].
- The JavaScript Map's string keys: the histogram is keyed by the quantised colour. `ColorKey` proves that the string keys `r,g,b` and their `split(',').map(Number)` read-back identify colours one to one.
- Preview.ScalePreview: scaled sizes are reals. The canvas truncation of fractional sizes is left out.
- The text layer's drawing and the `textLayer` creation from the form inputs are UI. `fontSize` is a `nat`, as `parseInt` of a range input gives.
