# Video difference tool: a Dafny model of its core

The tool compares a reference video with a current video. It first aligns the two frame sequences:

- A Gotoh affine-gap aligner labels each step as one of four alignment elements:
  - MATCH: both videos have a frame, and the pixels differ.
  - PERFECT: both videos have a frame with the same pixels.
  - INSERTION: a frame only in the current video.
  - DELETION: a frame only in the reference video.
- A divide-and-conquer aligner first pins down frames with equal hashes. It then hands the gaps between them to Gotoh.

The difference generator then walks the alignment and writes one frame of a difference video per element:

- a pixel-by-pixel difference image for a MATCH;
- a coloured frame otherwise.

The GUI navigates that difference video:

- a clamped frame index and a search for the next difference;
- the arrow-key table;
- a binary search over the timeline's overview bar;
- an LRU cache of thumbnails;
- per-video frame lists with placeholders where a video has no frame;
- counts over the alignment;
- a text component that shrinks its font and trims its start with an ellipsis.

A Levenshtein distance over alignments measures the aligner in the tests. A Python driver tunes the gap penalties with an optimiser.

## How it is modelled

There is one Dafny module per source file:

| area | modules |
|---|---|
| shared definitions | `Errors`, `Doubles`, `Alignment` |
| alignment engine | `Gotoh`, `DivideAndConquer`, `Iterators` |
| pixel and byte loops, and the metric | `PixelCountMetric`, `DifferenceGenerator`, `VideoGenerator` |
| test helper | `LevenshteinDistance` |
| GUI logic | `FrameNavigation`, `DiffSequenceInfo`, `FrameGrabber`, `ThumbnailCache`, `ScreenKeyHandler`, `OverviewBar`, `AutoSizeText` |
| tuning driver | `TuningDriver` |

- **Exceptions** become values: `Result<T>` (`Ok` or `Err(error)`) and `Outcome` (`Pass` or `Fail(error)`). Each error names the Kotlin or Python exception it stands for.
- **Mutable objects are classes.** These are the Gotoh matrices, the divide-and-conquer aligner, the iterator, the execution state, the video generator, the frame navigator, the frame grabber, the thumbnail cache and the auto-size text state.
  - Their methods carry `modifies` clauses.
  - Each method is proved against specification functions:
    - `Gotoh.Cell` and `Gotoh.Trace`;
    - `DivideAndConquer.Matches` and `DivideAndConquer.Assemble`;
    - `PixelCountMetric.DifferingPixels`, `DifferenceGenerator.DiffBuffer` and `VideoGenerator.Bgr`;
    - `LevenshteinDistance.Dist`;
    - `FrameGrabber.FrameIndices`, `ThumbnailCache.NextRecentlyUsed`, and so on.
  - Lemmas then prove what the source promises about those functions.
- **Loops stay loops.** Every loop of the source is a `while` loop with invariants:
  - Gotoh's initialise, fill and traceback;
  - the divide-and-conquer assembly;
  - the pixel loops and the Levenshtein table;
  - the frame-list generation;
  - the binary search and the trim loop.
- **Scores** are reals with an explicit negative infinity. **Frames** are byte sequences. **The metric and the hash function** are function parameters.

Some behaviours are modelled exactly as written:

- The iterator's `size()` is the length of a `const` list, so neither the list nor the size ever changes.
- `iterator()` returns the object itself, so the hashing loop and the later `take` calls share one position. The model uses one iterator object for all of them.
- `markDuplicates` discards the sets it builds, so it returns its input unchanged. A frame repeated in the first video is then matched twice to the same frame, and `take` receives a negative count. This is the fourth finding below.
- Matches that cross make the run throw, whether or not duplicates are marked.

## Model

| member | source | states |
|---|---|---|
| Alignment.ConsumedCounts | DifferenceGenerator/src/main/kotlin/algorithms/AlignmentAlgorithm.kt:6-20 | each element but INSERTION takes a reference frame and each but DELETION a current frame, so the frames consumed are the length less those counts, or #MATCH+#PERFECT plus #DELETION (resp. #INSERTION) |
| Alignment.Reverse | DifferenceGenerator/src/main/kotlin/algorithms/Gotoh.kt:222-224 | the reversed list has the same length and element k is the old element at length-1-k |
| Alignment.AlgorithmExecutionState.constructor | DifferenceGenerator/src/main/kotlin/algorithms/AlignmentAlgorithm.kt:42 | a new state is alive |
| Alignment.AlgorithmExecutionState.Reset | DifferenceGenerator/src/main/kotlin/algorithms/AlignmentAlgorithm.kt:49-51 | after reset the flag is true, whatever it was |
| Alignment.AlgorithmExecutionState.Stop | DifferenceGenerator/src/main/kotlin/algorithms/AlignmentAlgorithm.kt:60-62 | after stop the flag is false, so repeated stops leave it false |
| Alignment.ExecutionStateHolder.constructor | DifferenceGenerator/src/main/kotlin/algorithms/AlignmentAlgorithm.kt:33-34 | no instance exists before the first request |
| Alignment.ExecutionStateHolder.GetInstance | DifferenceGenerator/src/main/kotlin/algorithms/AlignmentAlgorithm.kt:36-39 | the first call creates a fresh alive state; every later call returns that same object |
| Alignment.CheckAlive | DifferenceGenerator/src/main/kotlin/algorithms/AlignmentAlgorithm.kt:108-112 | `isAlive()` returns normally iff the flag is set, and otherwise throws DifferenceGeneratorStoppedException |
| Gotoh.LeadingGapExtends | DifferenceGenerator/src/main/kotlin/algorithms/Gotoh.kt:89-100 | the first column's gapA and the first row's gapB, gapOpen+(i-1)·gapExt, grow by one extension per element, the interior's gap-extension recurrence |
| Gotoh.TraceSucceeds | DifferenceGenerator/src/main/kotlin/algorithms/Gotoh.kt:174-220 | from a consistent position, and with a choice rule that keeps the walk on the borders as their cells dictate, the traceback never indexes outside the matrices |
| Gotoh.TraceConsumes | DifferenceGenerator/src/main/kotlin/algorithms/Gotoh.kt:174-220 | a traceback from (i, j) that reaches (0, 0) has consumed exactly i reference and j current elements |
| Gotoh.MatchIntoTopRow | DifferenceGenerator/src/main/kotlin/algorithms/Gotoh.kt:183-195 | a MATCH arriving at row 0 continues as INSERTION, because only gapB is finite there |
| Gotoh.MatchIntoLeftColumn | DifferenceGenerator/src/main/kotlin/algorithms/Gotoh.kt:183-195 | a MATCH arriving at column 0 continues as DELETION |
| Gotoh.DeletionIntoTopRow | DifferenceGenerator/src/main/kotlin/algorithms/Gotoh.kt:196-206 | a DELETION arriving at row 0 continues as INSERTION |
| Gotoh.DeletionAlongLeftColumn | DifferenceGenerator/src/main/kotlin/algorithms/Gotoh.kt:196-206 | along column 0 a DELETION stays a DELETION |
| Gotoh.InsertionIntoLeftColumn | DifferenceGenerator/src/main/kotlin/algorithms/Gotoh.kt:207-217 | an INSERTION arriving at column 0 continues as DELETION |
| Gotoh.InsertionAlongTopRow | DifferenceGenerator/src/main/kotlin/algorithms/Gotoh.kt:207-217 | along row 0 an INSERTION stays an INSERTION |
| Gotoh.GotohSteers | DifferenceGenerator/src/main/kotlin/algorithms/Gotoh.kt:183-217 | Gotoh's choice of the next origin never yields PERFECT and keeps the walk on the borders the way the border cells dictate |
| Gotoh.StartConsistent | DifferenceGenerator/src/main/kotlin/algorithms/Gotoh.kt:154-172 | the origin chosen from the corner's three scores is one the walk can continue from at (m, n) |
| Gotoh.GotohAlignmentSucceeds | DifferenceGenerator/src/main/kotlin/algorithms/Gotoh.kt:152-225 | the traceback never throws, for every pair of inputs, metric and penalties |
| Gotoh.Align | DifferenceGenerator/src/main/kotlin/algorithms/Gotoh.kt:47-62 | the alignment always exists and consumes every element of both inputs: #MATCH+#PERFECT+#DELETION = m and #MATCH+#PERFECT+#INSERTION = n |
| Gotoh.LastNeverPerfect | DifferenceGenerator/src/main/kotlin/algorithms/Gotoh.kt:176-180 | for non-empty input the last element is never PERFECT, because the first traceback step reads the similarity entry past the last pair, which stays 0.0 |
| Gotoh.SingletonIsMatch | DifferenceGenerator/src/main/kotlin/algorithms/Gotoh.kt:174-195 | with the default penalties two identical one-element inputs align as [MATCH], not [PERFECT] |
| Gotoh.TracePerfect | DifferenceGenerator/src/main/kotlin/algorithms/Gotoh.kt:176-180 | an element of the walk is PERFECT only if the test held at the cell where it was appended, i.e. (i, j) less what the earlier elements consumed |
| Gotoh.PerfectInReversedTrace | DifferenceGenerator/src/main/kotlin/algorithms/Gotoh.kt:176-180 | the same fact counted along the reversed (front-to-back) list |
| Gotoh.PerfectMarksIdenticalSuccessor | DifferenceGenerator/src/main/kotlin/algorithms/Gotoh.kt:176-180 | a PERFECT at position q marks that the pair right after it (at the frames its prefix has consumed) has similarity 1.0, not its own pair |
| Gotoh.Gotoh.constructor | DifferenceGenerator/src/main/kotlin/algorithms/Gotoh.kt:26-36 | the aligner keeps the metric and both penalties, and has no matrices sized yet (m = n = -1) |
| Gotoh.Gotoh.Initialize | DifferenceGenerator/src/main/kotlin/algorithms/Gotoh.kt:71-101 | four fresh (m+1)x(n+1) matrices: corner 0, column 0 with gapA = open+(i-1)·ext and the other two -inf, row 0 the mirror image with gapB, similarity all 0.0 |
| Gotoh.Gotoh.FirstColumn | DifferenceGenerator/src/main/kotlin/algorithms/Gotoh.kt:89-93 | every cell of column 0 below the corner gets the leading-gap gapA and -inf score and gapB; the corner is untouched |
| Gotoh.Gotoh.FirstRow | DifferenceGenerator/src/main/kotlin/algorithms/Gotoh.kt:96-100 | every cell of row 0 right of the corner gets the leading-gap gapB and -inf score and gapA; column 0 is untouched |
| Gotoh.Gotoh.Execute | DifferenceGenerator/src/main/kotlin/algorithms/Gotoh.kt:103-150 | after initialize, execute leaves every cell of the three matrices equal to the recurrences' value `Cell` |
| Gotoh.Gotoh.BordersDone | DifferenceGenerator/src/main/kotlin/algorithms/Gotoh.kt:83-100 | what initialize writes in row 0 and column 0 is exactly the recurrences' boundary value |
| Gotoh.Gotoh.FillSimilarity | DifferenceGenerator/src/main/kotlin/algorithms/Gotoh.kt:108-116 | similarityM[i-1][j-1] = 1 - metric(a[i-1], b[j-1]) for every pair, and the extra row and column stay 0.0 |
| Gotoh.Gotoh.FillCells | DifferenceGenerator/src/main/kotlin/algorithms/Gotoh.kt:119-149 | filling row by row from finished borders leaves every cell at its recurrence value |
| Gotoh.Gotoh.ComputeCell | DifferenceGenerator/src/main/kotlin/algorithms/Gotoh.kt:122-147 | cell (i, j) gets score = max of the three diagonal predecessors plus similarity, gapA and gapB the open/extend maxima from above and from the left; no other cell changes |
| Gotoh.Gotoh.Traceback | DifferenceGenerator/src/main/kotlin/algorithms/Gotoh.kt:152-225 | on filled matrices the traceback loop returns exactly the specified alignment `Align` |
| Gotoh.Gotoh.FinalOrigin | DifferenceGenerator/src/main/kotlin/algorithms/Gotoh.kt:154-172 | the start origin is MATCH if the corner maximum is score[m][n], else DELETION if it is gapA[m][n], else INSERTION |
| Gotoh.Gotoh.TraceStep | DifferenceGenerator/src/main/kotlin/algorithms/Gotoh.kt:174-219 | one loop iteration appends the walk's next element and moves strictly towards (0, 0): MATCH decrements both indices, DELETION i, INSERTION j |
| Gotoh.Gotoh.Run | DifferenceGenerator/src/main/kotlin/algorithms/Gotoh.kt:47-62 | `run(a, b)` sizes the matrices to the inputs and returns the alignment `Align` of a and b, which consumes both inputs |
| Gotoh.Gotoh.RunArray | DifferenceGenerator/src/main/kotlin/algorithms/AlignmentAlgorithm.kt:86-91 | `run(Array, Array)` gives the alignment of the arrays' elements in order |
| Gotoh.Gotoh.RunIterableAsWritten | DifferenceGenerator/src/main/kotlin/algorithms/Gotoh.kt:64-69 | the iterable `run` as written throws ClassCastException whenever either iterable has fewer than two elements left, and otherwise aligns what is left |
| Gotoh.Gotoh.RunIterable | DifferenceGenerator/src/main/kotlin/algorithms/Gotoh.kt:64-69 | with the lists copied instead of cast, every pair of iterables is aligned from their current positions |
| Gotoh.CastToArrayList | DifferenceGenerator/src/main/kotlin/algorithms/Gotoh.kt:68 | the cast of `toList()` succeeds exactly for two or more elements, then returning the list unchanged |
| Gotoh.SingleFrameCastFails | DifferenceGenerator/src/main/kotlin/algorithms/Gotoh.kt:64-69 | a one-frame (or empty) iterable makes the cast fail, while the list-based `run` aligns the same one-frame input |
| Gotoh.RoundedBorderThrows | DifferenceGenerator/src/main/kotlin/algorithms/Gotoh.kt:89-93 | as written in binary64, with the default penalties, gapA[6][0] + gapExtensionPenalty is not gapA[7][0], and `run` of seven frames against none throws an index error |
| Gotoh.SeventhRowThrows | DifferenceGenerator/src/main/kotlin/algorithms/Gotoh.kt:174-206 | whenever the DELETION test at (7, 0) fails, the walk down column 0 turns to MATCH and then reads column -1, so `run` of seven frames against none throws |
| Gotoh.OpenPenaltyRounds | DifferenceGenerator/src/main/kotlin/algorithms/Gotoh.kt:28 | the default open penalty 0.2 is the double 3602879701896397/2^54 |
| Gotoh.ExtensionPenaltyRounds | DifferenceGenerator/src/main/kotlin/algorithms/Gotoh.kt:29 | the default extension penalty -0.8 is the double -3602879701896397/2^52 |
| Gotoh.FiveExtensionsRound | DifferenceGenerator/src/main/kotlin/algorithms/Gotoh.kt:91 | (6 - 1) * gapExtensionPenalty rounds to -4.0 |
| Gotoh.SixExtensionsRound | DifferenceGenerator/src/main/kotlin/algorithms/Gotoh.kt:91 | (7 - 1) * gapExtensionPenalty rounds to -1351079888211149/2^48 |
| Gotoh.RowSixRounds | DifferenceGenerator/src/main/kotlin/algorithms/Gotoh.kt:91 | gapA[6][0] is -4278419646001971/2^50, printed -3.8 |
| Gotoh.RowSevenRounds | DifferenceGenerator/src/main/kotlin/algorithms/Gotoh.kt:91 | gapA[7][0] is -5179139571476071/2^50, printed -4.6000000000000005 |
| Gotoh.RowSixExtendedRounds | DifferenceGenerator/src/main/kotlin/algorithms/Gotoh.kt:200 | gapA[6][0] + gapExtensionPenalty is -2589569785738035/2^49, printed -4.6 |
| Gotoh.AccumulatedGapExact | DifferenceGenerator/src/main/kotlin/algorithms/Gotoh.kt:89-100 | with exact sums the accumulated border (open, then one extension added per row) equals gapOpen+(i-1)·gapExt |
| Gotoh.AccumulatedBorderAligns | DifferenceGenerator/src/main/kotlin/algorithms/Gotoh.kt:89-93 | with the first column accumulated, `gapA[i][0] = gapA[i-1][0] + gapExtensionPenalty`, `run` of any number of frames against none returns one DELETION per frame, for every addition the traceback compares with, binary64 included |
| Gotoh.AccumulatedColumnWalk | DifferenceGenerator/src/main/kotlin/algorithms/Gotoh.kt:174-206 | on the accumulated first column the walk from (i, 0) as DELETION appends i DELETIONs and reaches the corner |
| Gotoh.AccumulatedStaysDeletion | DifferenceGenerator/src/main/kotlin/algorithms/Gotoh.kt:196-206 | on the accumulated first column the DELETION test holds at every row below the first |
| Gotoh.DeletionColumn | DifferenceGenerator/src/main/kotlin/algorithms/Gotoh.kt:174-206 | a walk down column 0 whose choice stays DELETION at every row below the first ends at the corner with one DELETION per row |
| Gotoh.AlignAgainstNone | DifferenceGenerator/src/main/kotlin/algorithms/Gotoh.kt:47-62 | with exact sums Gotoh's alignment against no current frames is one DELETION per reference frame |
| DivideAndConquer.Hashes | DifferenceGenerator/src/main/kotlin/hashing/ObjectHasher.kt:25 | one hash per frame |
| DivideAndConquer.FirstEqual | DifferenceGenerator/src/main/kotlin/algorithms/DivideAndConquerAligner.kt:145-149 | the result is -1 or an index with an equal hash, and no earlier index has one |
| DivideAndConquer.MatchesUpTo | DifferenceGenerator/src/main/kotlin/algorithms/DivideAndConquerAligner.kt:139-154 | the pairs collected for the first i hashes lie inside both videos, with strictly increasing first indices |
| DivideAndConquer.Matches | DifferenceGenerator/src/main/kotlin/algorithms/DivideAndConquerAligner.kt:139-154 | the same for the whole first video |
| DivideAndConquer.MatchesUpToExact | DifferenceGenerator/src/main/kotlin/algorithms/DivideAndConquerAligner.kt:139-154 | every collected pair is a non-empty hash matched with its first equal hash, and every matchable index below i is collected |
| DivideAndConquer.MatchesExact | DifferenceGenerator/src/main/kotlin/algorithms/DivideAndConquerAligner.kt:139-154 | findMatches' guarantees: first indices strictly increase (so each at most once), empty hashes are skipped, j is the smallest equal hash, and no matchable frame is missed |
| DivideAndConquer.GotohAligner | DifferenceGenerator/src/main/kotlin/algorithms/DivideAndConquerAligner.kt:106 | the wrapped Gotoh aligner consumes both lists it is given |
| DivideAndConquer.SubAlignment | DifferenceGenerator/src/main/kotlin/algorithms/DivideAndConquerAligner.kt:93-108 | a sub-alignment consumes both slices: [] for two empty ones, only INSERTIONs or DELETIONs when one is empty, else the wrapped aligner's result |
| DivideAndConquer.AssembleStep | DifferenceGenerator/src/main/kotlin/algorithms/DivideAndConquerAligner.kt:60-78 | a pair before the last second index makes `take` fail; otherwise the segments up to the pair and one MATCH are appended and the last indices become first+1 and second+1 |
| DivideAndConquer.AssembleSucceedsIff | DifferenceGenerator/src/main/kotlin/algorithms/DivideAndConquerAligner.kt:62-63 | the run returns normally exactly when the matched second indices strictly increase, and otherwise throws IllegalArgumentException from `take` |
| DivideAndConquer.AssembleAlignsPairs | DifferenceGenerator/src/main/kotlin/algorithms/DivideAndConquerAligner.kt:60-85 | a successful run consumes both videos and has, for each matched pair, a MATCH preceded by exactly the frames before the pair's two frames |
| DivideAndConquer.RepeatedFrameThrows | DifferenceGenerator/src/main/kotlin/algorithms/DivideAndConquerAligner.kt:116-130 | with duplicates left unmarked, a repeated frame is matched twice to the same frame and the run throws |
| DivideAndConquer.CrossingMatchesThrow | DifferenceGenerator/src/main/kotlin/algorithms/DivideAndConquerAligner.kt:62-63 | two frames matched in opposite orders make the run throw |
| DivideAndConquer.DivideAndConquerAligner.constructor | DifferenceGenerator/src/main/kotlin/algorithms/DivideAndConquerAligner.kt:15-19 | keeps the wrapped algorithm and the hasher, with empty hashes and alignment |
| DivideAndConquer.DivideAndConquerAligner.GetHashes | DifferenceGenerator/src/main/kotlin/algorithms/DivideAndConquerAligner.kt:47-48 | the hashes of every frame from the iterator's position on, leaving the iterator at the end |
| DivideAndConquer.DivideAndConquerAligner.MarkDuplicatesAsWritten | DifferenceGenerator/src/main/kotlin/algorithms/DivideAndConquerAligner.kt:116-130 | as written, every hash comes back unchanged |
| DivideAndConquer.DivideAndConquerAligner.MarkDuplicates | DifferenceGenerator/src/main/kotlin/algorithms/DivideAndConquerAligner.kt:110-130 | with the set kept, the loops empty exactly the hashes that occur at another index too (`Marked`) |
| DivideAndConquer.MarkedMatchesUnique | DifferenceGenerator/src/main/kotlin/algorithms/DivideAndConquerAligner.kt:110-154 | after marking, `findMatches` pairs only frames whose hash is unique in each video, and no current frame is matched twice |
| DivideAndConquer.RepeatedFrameUnmatched | DifferenceGenerator/src/main/kotlin/algorithms/DivideAndConquerAligner.kt:116-130 | after marking, the repeated frame of `RepeatedFrameThrows` is matched to nothing |
| DivideAndConquer.DivideAndConquerAligner.FindMatches | DifferenceGenerator/src/main/kotlin/algorithms/DivideAndConquerAligner.kt:139-154 | the nested loops compute `Matches` of the two hash arrays |
| DivideAndConquer.DivideAndConquerAligner.GetSubAlignment | DifferenceGenerator/src/main/kotlin/algorithms/DivideAndConquerAligner.kt:93-108 | computes `SubAlignment` with the wrapped aligner |
| DivideAndConquer.DivideAndConquerAligner.Round | DifferenceGenerator/src/main/kotlin/algorithms/DivideAndConquerAligner.kt:60-78 | a round succeeds iff the pair's second index is not before the last one; it then appends the segment alignment and a MATCH and moves both iterators past the pair, and otherwise throws leaving the alignment as it was |
| DivideAndConquer.DivideAndConquerAligner.Advance | DifferenceGenerator/src/main/kotlin/algorithms/DivideAndConquerAligner.kt:60-78 | a round keeps the loop invariant relating the alignment built so far to the whole result, or fails exactly when the whole run fails |
| DivideAndConquer.DivideAndConquerAligner.Run | DifferenceGenerator/src/main/kotlin/algorithms/DivideAndConquerAligner.kt:40-86 | hashes both videos from their positions, marks the repeated hashes, finds the matches and returns the assembled alignment; the previous alignment is cleared, so reuse does not accumulate results |
| DivideAndConquer.DivideAndConquerAligner.AlignTails | DifferenceGenerator/src/main/kotlin/algorithms/DivideAndConquerAligner.kt:81-83 | the tails after the last match are every frame left in each video, sub-aligned |
| DivideAndConquer.DivideAndConquerAligner.AlignSegments | DifferenceGenerator/src/main/kotlin/algorithms/DivideAndConquerAligner.kt:53-85 | the loop and the tails compute `Assemble` over the matches from the start of both videos |
| DivideAndConquer.DivideAndConquerAligner.RunList | DifferenceGenerator/src/main/kotlin/algorithms/DivideAndConquerAligner.kt:21-26 | `run(ArrayList, ArrayList)` assembles the alignment of the two lists' elements from their beginnings, along the matches of their marked hashes |
| DivideAndConquer.DivideAndConquerAligner.RunArray | DifferenceGenerator/src/main/kotlin/algorithms/AlignmentAlgorithm.kt:86-91 | `run(Array, Array)` does the same for the arrays' elements in order |
| Iterators.ForLoopAsWrittenDropsLast | DifferenceGenerator/src/main/kotlin/wrappers/ResettableArrayListIterator.kt:22-24 | with the declared `hasNext`, a loop never reaches the last element |
| Iterators.ForLoopAsWrittenSkipsSingleton | DifferenceGenerator/src/main/kotlin/wrappers/ResettableArrayListIterator.kt:22-24 | over a one-element list the declared `hasNext` visits nothing, while the documented one visits the element |
| Iterators.ForLoopVisitsRest | DifferenceGenerator/src/main/kotlin/wrappers/ResettableIterable.kt:19-24 | with the documented `hasNext`, a loop from any position visits exactly the rest of the list |
| Iterators.Slice | DifferenceGenerator/src/main/kotlin/algorithms/DivideAndConquerAligner.kt:62-63 | `take(count)` from a position yields min(count, what is left) elements, each the list's element at that offset |
| Iterators.ResettableArrayListIterator.constructor | DifferenceGenerator/src/main/kotlin/wrappers/ResettableArrayListIterator.kt:11-12 | a new iterator wraps the list at position 0 |
| Iterators.ResettableArrayListIterator.Reset | DifferenceGenerator/src/main/kotlin/wrappers/ResettableArrayListIterator.kt:14-16 | `reset()` moves back to position 0 |
| Iterators.ResettableArrayListIterator.HasNextAsWritten | DifferenceGenerator/src/main/kotlin/wrappers/ResettableArrayListIterator.kt:22-24 | the declared test holds only while at least two elements are left |
| Iterators.ResettableArrayListIterator.HasNext | DifferenceGenerator/src/main/kotlin/wrappers/ResettableIterable.kt:19-24 | the documented test holds exactly while an element is left |
| Iterators.ResettableArrayListIterator.Next | DifferenceGenerator/src/main/kotlin/wrappers/ResettableArrayListIterator.kt:26-28 | `next()` returns the element at the position, or throws past the end, and advances by exactly one |
| Iterators.ResettableArrayListIterator.Take | DifferenceGenerator/src/main/kotlin/algorithms/DivideAndConquerAligner.kt:62-63 | `take` throws IllegalArgumentException for a negative count and leaves the position; otherwise returns `Slice` and advances by the number taken |
| Iterators.ResettableArrayListIterator.ToList | DifferenceGenerator/src/main/kotlin/algorithms/Gotoh.kt:68 | `toList()` returns every element left and leaves the position at the end |
| PixelCountMetric.Masked | DifferenceGenerator/src/main/kotlin/metrics/PixelCountMetric.kt:36-42 | masking a byte with 0xFF gives it back, so channels compare by plain equality |
| PixelCountMetric.DifferingPixels | DifferenceGenerator/src/main/kotlin/metrics/PixelCountMetric.kt:33-48 | the count never exceeds the number of pixels |
| PixelCountMetric.DifferingPixelsCountsSet | DifferenceGenerator/src/main/kotlin/metrics/PixelCountMetric.kt:33-48 | the count is the size of the set of pixels k whose byte 3k, 3k+1 or 3k+2 differs |
| PixelCountMetric.NoDifferenceIffZero | DifferenceGenerator/src/main/kotlin/metrics/PixelCountMetric.kt:35-48 | the count is 0 exactly when no pixel differs |
| PixelCountMetric.IdenticalBuffersGiveZero | DifferenceGenerator/src/main/kotlin/metrics/PixelCountMetric.kt:35-48 | identical buffers give 0 |
| PixelCountMetric.AllDifferIffFull | DifferenceGenerator/src/main/kotlin/metrics/PixelCountMetric.kt:35-48 | the count is w·h exactly when every pixel differs |
| PixelCountMetric.NormalizeDistance | DifferenceGenerator/src/main/kotlin/metrics/PixelCountMetric.kt:64-69 | the normalised distance is NaN exactly for an image without pixels, and otherwise a fraction in [0, 1] times w·h giving the count |
| PixelCountMetric.MeasureDistance | DifferenceGenerator/src/main/kotlin/metrics/PixelCountMetric.kt:22-55 | with the size taken from `a` alone, the loop throws iff a buffer is shorter than 3·w·h; otherwise it returns the count, or the count over w·h when normalising |
| PixelCountMetric.NormalizedCounts | DifferenceGenerator/src/test/kotlin/metrics/PixelCountMetricTest.kt:43-60 | 0, 1 and 4 differing pixels of a 10x10 image normalise to 0, 0.01 and 0.04 |
| Doubles.Divide | DifferenceGenerator/src/main/kotlin/metrics/PixelCountMetric.kt:64-69 | a quotient is NaN exactly for a zero denominator, and otherwise multiplies back to the numerator |
| Doubles.Exponent | DifferenceGenerator/src/main/kotlin/algorithms/Gotoh.kt:91 | the binade of a positive real: 2^e <= y < 2^(e+1) |
| Doubles.ExponentIs | DifferenceGenerator/src/main/kotlin/algorithms/Gotoh.kt:91 | that exponent is unique: any e with 2^e <= y < 2^(e+1) is it |
| Doubles.RoundHalfEven | DifferenceGenerator/src/main/kotlin/algorithms/Gotoh.kt:91 | round-half-even, the rounding of binary64 arithmetic: within 0.5 of t, and even on a tie |
| Doubles.RoundHalfEvenNearest | DifferenceGenerator/src/main/kotlin/algorithms/Gotoh.kt:91 | no integer is nearer t than RoundHalfEven(t) |
| Doubles.RoundToMultipleNearest | DifferenceGenerator/src/main/kotlin/algorithms/Gotoh.kt:91 | no multiple of u is nearer x than its rounding to a multiple of u |
| Doubles.Ulp | DifferenceGenerator/src/main/kotlin/algorithms/Gotoh.kt:91 | the spacing of doubles in the binade of x is positive and at most 2^-52 of x |
| Doubles.ToDoubleError | DifferenceGenerator/src/main/kotlin/algorithms/Gotoh.kt:91 | a rounded nonzero result is within 2^-53 of its exact value, relative to it |
| DifferenceGenerator.DiffBuffer | DifferenceGenerator/src/main/kotlin/DifferenceGenerator.kt:155-193 | the difference image has three bytes per pixel |
| DifferenceGenerator.DiffBufferPixel | DifferenceGenerator/src/main/kotlin/DifferenceGenerator.kt:168-191 | pixel k of the difference image is the MATCH colour 115,239,255 (BGR) if any channel differs and black otherwise |
| DifferenceGenerator.DiffBufferCountsDifferences | DifferenceGenerator/src/main/kotlin/DifferenceGenerator.kt:155-193 | the pixel-count metric of the difference image against black is the metric of the two frames |
| DifferenceGenerator.WritePixel | DifferenceGenerator/src/main/kotlin/DifferenceGenerator.kt:187-189 | the three stores of one pixel extend the written prefix by blue, green and red |
| DifferenceGenerator.ComparePixel | DifferenceGenerator/src/main/kotlin/DifferenceGenerator.kt:169-185 | the bytes to write are the MATCH colour when a channel differs and black otherwise |
| DifferenceGenerator.GetDifferencesBetweenBufferedImages | DifferenceGenerator/src/main/kotlin/DifferenceGenerator.kt:155-193 | throws iff a frame buffer is too short; otherwise returns a fresh buffer that is exactly the difference image, every byte written once and the frames untouched |
| DifferenceGenerator.WriteDifferences | DifferenceGenerator/src/main/kotlin/DifferenceGenerator.kt:168-191 | the loop completes iff both frames hold the pixels, and then the buffer is the difference image |
| DifferenceGenerator.RecordAt | DifferenceGenerator/src/main/kotlin/DifferenceGenerator.kt:115-135 | element k records a diff frame iff it is a MATCH, and otherwise the coloured frame of that element |
| DifferenceGenerator.DiffFramesIncrease | DifferenceGenerator/src/main/kotlin/DifferenceGenerator.kt:115-135 | the frames diffed at two MATCHes k < k' are strictly later in both videos at k', so no frame is diffed twice |
| DifferenceGenerator.DiffFramesConsumed | DifferenceGenerator/src/main/kotlin/DifferenceGenerator.kt:115-135 | the frames a MATCH diffs are frames the alignment consumes |
| DifferenceGenerator.GenerateDifference | DifferenceGenerator/src/main/kotlin/DifferenceGenerator.kt:103-146 | an aligner failure propagates; an alignment consuming more frames than a video has throws; otherwise exactly one frame is recorded per element, MATCH and PERFECT advancing both videos, INSERTION the current and DELETION the reference, and the final alive check decides |
| DifferenceGenerator.ValidateVideos | DifferenceGenerator/src/main/kotlin/DifferenceGenerator.kt:50-74 | the reference codec is checked first, then the current codec, then equal width and height; each failure is its own exception, and success takes the shared dimensions |
| LevenshteinDistance.DistBounds | DifferenceGenerator/src/test/kotlin/LevenshteinDistance.kt:17-42 | the distance of two prefixes lies between the difference of their lengths and the longer length |
| LevenshteinDistance.DistZeroIffEqual | DifferenceGenerator/src/test/kotlin/LevenshteinDistance.kt:17-42 | the distance is 0 exactly when the two prefixes are equal |
| LevenshteinDistance.DistSymmetric | DifferenceGenerator/src/test/kotlin/LevenshteinDistance.kt:17-42 | swapping the two alignments keeps the distance |
| LevenshteinDistance.Distance | DifferenceGenerator/src/test/kotlin/LevenshteinDistance.kt:42 | `distance` is 0 iff the alignments are equal, and lies between the difference of the lengths and the longer length |
| LevenshteinDistance.DistanceSymmetric | DifferenceGenerator/src/test/kotlin/LevenshteinDistance.kt:42 | `distance(a, b) = distance(b, a)` |
| LevenshteinDistance.LevenshteinDistance.constructor | DifferenceGenerator/src/test/kotlin/LevenshteinDistance.kt:11-42 | `init` builds the (m+1)x(n+1) table of prefix distances, and `distance` is its corner |
| LevenshteinDistance.Table | DifferenceGenerator/src/test/kotlin/LevenshteinDistance.kt:19-40 | the three loops on a fresh table leave every cell at the distance of its prefixes, with d[i][0] = i and d[0][j] = j |
| LevenshteinDistance.FillTable | DifferenceGenerator/src/test/kotlin/LevenshteinDistance.kt:26-39 | the nested loops fill every inner cell from its neighbours |
| LevenshteinDistance.FillCell | DifferenceGenerator/src/test/kotlin/LevenshteinDistance.kt:27-38 | equal elements copy the diagonal, others take one plus the least neighbour; no other cell changes |
| VideoGenerator.Bgr | VideoGenerator/src/main/kotlin/VideoGeneratorImpl.kt:71-80 | the BGR frame has 3·w·h bytes |
| VideoGenerator.BgrChannels | VideoGenerator/src/main/kotlin/VideoGeneratorImpl.kt:77-79 | byte 3k is p & 0xff, byte 3k+1 (p >> 8) & 0xff, byte 3k+2 (p >> 16) & 0xff of pixel k |
| VideoGenerator.ChannelsKeepColour | VideoGenerator/src/main/kotlin/VideoGeneratorImpl.kt:77-79 | the three bytes reassemble into the pixel without its alpha byte: colour kept, transparency dropped |
| VideoGenerator.TargetIndex | VideoGenerator/src/main/kotlin/VideoGeneratorImpl.kt:74-76 | the target index (i / w · w + i % w) · 3 is 3i, so every byte is written once |
| VideoGenerator.VideoGeneratorImpl.constructor | VideoGenerator/src/main/kotlin/VideoGeneratorImpl.kt:15-26 | a new generator has no recorder and no frames |
| VideoGenerator.VideoGeneratorImpl.LoadFrame | VideoGenerator/src/main/kotlin/VideoGeneratorImpl.kt:57-87 | the recorder is created once, with the first frame's size; a frame is recorded as its BGR bytes iff the buffer holds w·h pixels, and the conversion throws otherwise |
| VideoGenerator.VideoGeneratorImpl.Save | VideoGenerator/src/main/kotlin/VideoGeneratorImpl.kt:92-99 | `save()` before any frame throws; otherwise the recorder is stopped and released; the frames stay |
| VideoGenerator.Convert | VideoGenerator/src/main/kotlin/VideoGeneratorImpl.kt:73-80 | the conversion loop completes iff the buffer holds the pixels, and then yields the BGR frame |
| FrameNavigation.Clamp | GUI/src/main/kotlin/frameNavigation/FrameNavigation.kt:92 | `coerceIn(0, size-1)` stays in range, keeps an index inside it and maps below to 0 and above to size-1 |
| FrameNavigation.Round | GUI/src/main/kotlin/frameNavigation/FrameNavigation.kt:62 | `roundToInt` is the integer within half of x, halves rounded up |
| FrameNavigation.IndexOfFirstDiff | GUI/src/main/kotlin/frameNavigation/FrameNavigation.kt:153 | -1 iff every element is PERFECT, else the first element that is not |
| FrameNavigation.IndexOfLastDiff | GUI/src/main/kotlin/frameNavigation/FrameNavigation.kt:156 | -1 iff every element is PERFECT, else the last element that is not |
| FrameNavigation.NextDiffAfter | GUI/src/main/kotlin/frameNavigation/FrameNavigation.kt:152-154 | the smallest k after the index whose element is not PERFECT, or -1 iff there is none |
| FrameNavigation.NextDiffBefore | GUI/src/main/kotlin/frameNavigation/FrameNavigation.kt:155-157 | the largest k before the index whose element is not PERFECT, or -1 iff there is none |
| FrameNavigation.FrameNavigation.constructor | GUI/src/main/kotlin/frameNavigation/FrameNavigation.kt:22-34 | the fields start at index 0, relative position 0.0 and no callback fired |
| FrameNavigation.FrameNavigation.Create | GUI/src/main/kotlin/frameNavigation/FrameNavigation.kt:22-39 | construction throws iff the sequence is empty; otherwise it shows frame 0, at relative position 0/(size-1), and fires the callback once |
| FrameNavigation.FrameNavigation.Jump | GUI/src/main/kotlin/frameNavigation/FrameNavigation.kt:90-100 | shows the request clamped into the video, with position index/(size-1), and fires the callback; the request itself is not clamped |
| FrameNavigation.FrameNavigation.JumpFrames | GUI/src/main/kotlin/frameNavigation/FrameNavigation.kt:46-49 | adds to the raw request, so overshoot accumulates, and shows it clamped, at relative position index/(size-1) |
| FrameNavigation.FrameNavigation.JumpToFrame | GUI/src/main/kotlin/frameNavigation/FrameNavigation.kt:79-82 | sets the raw request and shows it clamped, at relative position index/(size-1) |
| FrameNavigation.FrameNavigation.JumpToPercentage | GUI/src/main/kotlin/frameNavigation/FrameNavigation.kt:55-72 | throws for p outside [0, 1]; otherwise targets round((size-1)·p), and does nothing, not even the callback, when that equals the request; otherwise it shows that frame at relative position index/(size-1) |
| FrameNavigation.FrameNavigation.NextDiffIndex | GUI/src/main/kotlin/frameNavigation/FrameNavigation.kt:151-158 | forward, the smallest k > currentDiffIndex that is not PERFECT; backward, the largest k < currentDiffIndex; -1 iff there is none |
| FrameNavigation.FrameNavigation.JumpToNextDiff | GUI/src/main/kotlin/frameNavigation/FrameNavigation.kt:107-118 | changes nothing when there is no next difference, and otherwise shows it, at relative position index/(size-1), and fires the callback |
| FrameNavigation.FrameNavigation.HasNextFrame | GUI/src/main/kotlin/frameNavigation/FrameNavigation.kt:125-131 | forward iff the shown frame is not the last, backward iff it is not the first |
| FrameNavigation.FrameNavigation.HasNextDiff | GUI/src/main/kotlin/frameNavigation/FrameNavigation.kt:138-140 | holds iff some non-PERFECT element lies in that direction, i.e. iff the search is not -1 |
| DiffSequenceInfo.Insertions | GUI/src/main/kotlin/logic/DiffSequenceInfo.kt:16-18 | the count of INSERTIONs is their multiplicity in the multiset of the sequence |
| DiffSequenceInfo.Deletions | GUI/src/main/kotlin/logic/DiffSequenceInfo.kt:24-26 | the count of DELETIONs is their multiplicity in the multiset of the sequence |
| DiffSequenceInfo.FramesWithPixelDifferences | GUI/src/main/kotlin/logic/DiffSequenceInfo.kt:32-34 | the count of MATCHes is their multiplicity in the multiset of the sequence |
| DiffSequenceInfo.SizeOfVideoReference | GUI/src/main/kotlin/logic/DiffSequenceInfo.kt:40-42 | size less insertions is the number of reference frames the alignment consumes |
| DiffSequenceInfo.SizeOfVideoCurrent | GUI/src/main/kotlin/logic/DiffSequenceInfo.kt:48-50 | size less deletions is the number of current frames the alignment consumes |
| DiffSequenceInfo.SizeOfDiff | GUI/src/main/kotlin/logic/DiffSequenceInfo.kt:56-58 | the size is insertions + deletions + MATCHes + PERFECTs (also `CountsPartition`), the reference frames consumed plus the insertions and the current frames consumed plus the deletions; for an alignment of two videos, reference length + insertions and current length + deletions (`SizesOfAlignedVideos`) |
| DiffSequenceInfo.CountsPartition | GUI/src/main/kotlin/logic/DiffSequenceInfo.kt:16-58 | insertions, deletions, matches and PERFECTs add up to the size, so the three counts never exceed it |
| DiffSequenceInfo.SizesOfAlignedVideos | GUI/src/main/kotlin/logic/DiffSequenceInfo.kt:40-50 | for an alignment of two videos the reported sizes are their lengths |
| FrameGrabber.FrameIndices | GUI/src/main/kotlin/logic/FrameGrabber.kt:104-128 | each frame list is as long as the difference sequence |
| FrameGrabber.FrameIndicesAt | GUI/src/main/kotlin/logic/FrameGrabber.kt:108-126 | an entry is -1 iff the element is the video's skipped kind, and otherwise the count of frames taken before it |
| FrameGrabber.FramesAreConsecutive | GUI/src/main/kotlin/logic/FrameGrabber.kt:106-127 | the entries other than -1 are exactly 0, 1, 2, ... in order |
| FrameGrabber.FramesMatchVideoSizes | GUI/src/main/kotlin/logic/FrameGrabber.kt:104-128 | the reference list names size-insertions frames and the current list size-deletions, as DiffSequenceInfo reports |
| FrameGrabber.FrameGrabber.constructor | GUI/src/main/kotlin/logic/FrameGrabber.kt:51-73 | `init` generates both frame lists from the difference sequence |
| FrameGrabber.FrameGrabber.GenerateSequences | GUI/src/main/kotlin/logic/FrameGrabber.kt:104-128 | the single pass with two frame counters builds exactly the two frame lists |
| FrameGrabber.FrameGrabber.GetImagesAtDiff | GUI/src/main/kotlin/logic/FrameGrabber.kt:167-185 | [reference, current]: the insertion placeholder iff the reference has no frame there, the deletion placeholder iff the current has none, else the listed frames; a position outside throws |
| FrameGrabber.FrameGrabber.GetSizeOfDiff | GUI/src/main/kotlin/logic/FrameGrabber.kt:134-136 | the size of the difference is the length of both frame lists |
| FrameGrabber.FrameGrabber.GetInsertions | GUI/src/main/kotlin/logic/FrameGrabber.kt:211-213 | the number of INSERTIONs in the multiset of the sequence, which is the number of -1 placeholders in the generated reference list |
| FrameGrabber.FrameGrabber.GetDeletions | GUI/src/main/kotlin/logic/FrameGrabber.kt:219-221 | the number of DELETIONs in the multiset of the sequence, which is the number of -1 placeholders in the generated current list |
| FrameGrabber.FrameGrabber.GetFramesWithPixelDifferences | GUI/src/main/kotlin/logic/FrameGrabber.kt:227-229 | the number of MATCHes in the multiset of the sequence |
| FrameGrabber.PlaceholdersAreSkipped | GUI/src/main/kotlin/logic/FrameGrabber.kt:104-128 | the frame list built by skipping an element type has one -1 placeholder per element of that type |
| ThumbnailCache.RemoveFirst | GUI/src/main/kotlin/logic/caches/ThumbnailCache.kt:25 | `remove(index)` leaves the list alone if the index is absent and otherwise shortens it by one |
| ThumbnailCache.RemoveFirstDistinct | GUI/src/main/kotlin/logic/caches/ThumbnailCache.kt:25 | on a list without repetitions, removal leaves exactly the other entries, still without repetitions |
| ThumbnailCache.RemoveFirstHead | GUI/src/main/kotlin/logic/caches/ThumbnailCache.kt:31-33 | the oldest entry after removal is the old oldest one, or the second oldest when the index was the oldest |
| ThumbnailCache.TouchKeepsOrder | GUI/src/main/kotlin/logic/caches/ThumbnailCache.kt:24-36 | after `get(index)` the index appears once, as the last entry; the list stays distinct and within capacity, and the entries before it are the newest others in their old order |
| ThumbnailCache.EvictsLeastRecentlyUsed | GUI/src/main/kotlin/logic/caches/ThumbnailCache.kt:31-34 | a cached index evicts nothing; a new one evicts iff the list is full, and then the least recently used entry |
| ThumbnailCache.TouchContents | GUI/src/main/kotlin/logic/caches/ThumbnailCache.kt:24-38 | the entries after `get` are the old ones and the index, less the evicted one |
| ThumbnailCache.ThumbnailCache.constructor | GUI/src/main/kotlin/logic/caches/ThumbnailCache.kt:10-14 | an empty cache satisfies the cache invariant |
| ThumbnailCache.ThumbnailCache.Get | GUI/src/main/kotlin/logic/caches/ThumbnailCache.kt:24-38 | returns getImages(index), loading only when uncached, keeps the invariant (keys = listed indices, at most maxCacheSize) and evicts the least recently used; with capacity 0 or less it throws from `removeAt(0)` |
| ScreenKeyHandler.Decide | GUI/src/main/kotlin/ui/components/diffScreen/ScreenKeyHandler.kt:19-31 | only a key-down arrow is handled: without Ctrl a step of +1 or -1 frames, with Ctrl a jump to the next difference forward or backward |
| ScreenKeyHandler.KeyEventHandler | GUI/src/main/kotlin/ui/components/diffScreen/ScreenKeyHandler.kt:14-32 | an unhandled event returns false and changes nothing; a handled one runs exactly its action and returns true, unless the action throws; after a jump the navigator's relative position is index/(size-1) |
| OverviewBar.LowerBound | GUI/src/main/kotlin/ui/components/diffScreen/timeline/OverviewBar.kt:81-88 | the first position in the range with an offset at least x, or the end |
| OverviewBar.LowerBoundUnique | GUI/src/main/kotlin/ui/components/diffScreen/timeline/OverviewBar.kt:81-88 | any split point of smaller offsets before and larger or equal ones after is the lower bound |
| OverviewBar.Search | GUI/src/main/kotlin/ui/components/diffScreen/timeline/OverviewBar.kt:81-88 | the loop ends inside the range with a smaller offset before it and a larger or equal one at it; on sorted offsets it is the lower bound |
| OverviewBar.SearchRange | GUI/src/main/kotlin/ui/components/diffScreen/timeline/OverviewBar.kt:70-78 | [0, size-1], with upper = currentDiffIndex+1 for a leftward drag and lower = currentDiffIndex for a rightward one |
| OverviewBar.Selected | GUI/src/main/kotlin/ui/components/diffScreen/timeline/OverviewBar.kt:90-93 | the result is bumped to size iff it is size-1 and the click itself (not the cursor) lies right of that offset |
| OverviewBar.JumpOffsetHandler | GUI/src/main/kotlin/ui/components/diffScreen/timeline/OverviewBar.kt:62-95 | the cursor becomes offset+drag; the selected position is the bumped lower bound on sorted offsets; the navigator jumps to the frame before it, clamped, and its relative position is index/(size-1) |
| OverviewBar.ClicksAtTheEnds | GUI/src/main/kotlin/ui/components/diffScreen/timeline/OverviewBar.kt:90-95 | a click left of every box selects position 0 and one right of the last box selects the size, which the jump clamps |
| AutoSizeText.FontSize | GUI/src/main/kotlin/ui/components/general/AutoSizeText.kt:98-110 | a fixed size wins; otherwise at least the minimal size and, above it, the largest size fitting half the height and the per-character width; an empty text counts width 0 |
| AutoSizeText.TrimStart | GUI/src/main/kotlin/ui/components/general/AutoSizeText.kt:113-118 | the result is the longest end of the text that fits, each shorter start having been too wide; if none fits the trim throws |
| AutoSizeText.Ellipsis | GUI/src/main/kotlin/ui/components/general/AutoSizeText.kt:120-122 | a trimmed text longer than 3 gets "..." in place of its first three characters, the length kept; any other text is unchanged |
| AutoSizeText.AutoSizeTextState.constructor | GUI/src/main/kotlin/ui/components/general/AutoSizeText.kt:66-68 | both texts start as the input |
| AutoSizeText.AutoSizeTextState.Recompose | GUI/src/main/kotlin/ui/components/general/AutoSizeText.kt:70-73 | a changed input resets the displayed text to it; an unchanged one keeps the trimmed text |
| AutoSizeText.AutoSizeTextState.OnTextLayout | GUI/src/main/kotlin/ui/components/general/AutoSizeText.kt:98-122 | chooses the font size for the laid-out text, trims its start to the first fitting end and adds the ellipsis; throws with an empty text when nothing fits |
| TuningDriver.Command | DifferenceGenerator/src/test/python/main.py:32-34 | the command starts with the fixed gradle invocation and adds the two quoted properties |
| TuningDriver.CommandKeepsPenalties | DifferenceGenerator/src/test/python/main.py:32-34 | both penalties can be read back from the command, in order, each from its own property |
| TuningDriver.Split | DifferenceGenerator/src/test/python/main.py:38 | `split` always yields at least one piece |
| TuningDriver.SplitPieces | DifferenceGenerator/src/test/python/main.py:38 | no piece contains the separator |
| TuningDriver.JoinSplit | DifferenceGenerator/src/test/python/main.py:38 | joining the pieces with the separator gives the text back |
| TuningDriver.SplitLast | DifferenceGenerator/src/test/python/main.py:40 | the last piece is the text after the last separator |
| TuningDriver.ContainsAt | DifferenceGenerator/src/test/python/main.py:39 | `in` holds iff the pattern occurs at some position |
| TuningDriver.Strip | DifferenceGenerator/src/test/python/main.py:40 | `strip()` leaves a middle part of the line beginning and ending with non-whitespace, having removed only whitespace |
| TuningDriver.Matching | DifferenceGenerator/src/test/python/main.py:39 | every kept line mentions "Levenshtein" |
| TuningDriver.FirstMatching | DifferenceGenerator/src/test/python/main.py:39 | the filtered list is non-empty iff some line mentions "Levenshtein", and its head is the first such line |
| TuningDriver.LastToken | DifferenceGenerator/src/test/python/main.py:40 | `split(" ")[-1]` is the end of the line after its last space, with no space in it |
| TuningDriver.Score | DifferenceGenerator/src/test/python/main.py:38-40 | a failed score is the IndexError of `out[0]` |
| TuningDriver.ScoreFound | DifferenceGenerator/src/test/python/main.py:38-40 | a score is found iff a stdout line mentions "Levenshtein", and it is the last token of the first such line, stripped |
| TuningDriver.BlackBox | DifferenceGenerator/src/test/python/main.py:23-42 | the objective returns the score text iff the trial's output has a "Levenshtein" line, and raises IndexError otherwise |
| TuningDriver.Optimize | DifferenceGenerator/src/test/python/main.py:12-19 | the study's trials run in order until all complete or one raises, and the raising trial is the first failure |
| TuningDriver.Supervise | DifferenceGenerator/src/test/python/main.py:47-56 | a new optimizer starts after every session that completes or raises an Exception; a keyboard interrupt breaks the loop and other base exceptions propagate |

## Left out

- Video and image I/O are not modelled. This covers the FFmpeg grabbers and recorders, ImageIO and AWT drawing, `getBitmap` and the frame getters, and the MD5 hashing.
  - Frames are byte sequences.
  - Hashes come from an opaque function parameter.
  - The frames a video generator records are a list field of it.
  - The `loadFrame(ByteArray)` path that decodes an image is not modelled.
- The coroutine fill of Gotoh's similarity matrix is sequential in the model. Each row writes only its own cells.
- The synchronised creation of the execution-state singleton is modelled as a single-threaded first-use check.
- Floating-point rounding is modelled only where it changes what the program does:
  - `Doubles` rounds a sum or a product to binary64, round-half-even, without overflow or subnormals.
  - With it, the Gotoh finding below is proved on the default penalties.
  - Everywhere else, scores, the normalised distance and relative positions are reals, and NaN is an explicit constructor.
- Gotoh.LeadingGapExtends: the closed-form border grows by one extension per row only with exact sums. In binary64 it does not: gapA[6][0] + gapExtensionPenalty is not gapA[7][0] at the default penalties (`Gotoh.RoundedBorderThrows`). The accumulated border of the correction is exact by construction (`Gotoh.AccumulatedGapExact`).
- Gotoh.DeletionAlongLeftColumn: holds for exact sums, which is to say for the accumulated first column. As written, in binary64, the DELETION test fails at row 7 against no current frames.
- Gotoh.InsertionAlongTopRow: holds for exact sums and the accumulated first row. As written, in binary64, the INSERTION test fails at column 7 by the same arithmetic, which is not proved separately.
- Gotoh.GotohSteers: keeps the walk on the borders only with exact sums. In binary64 the border tests can fail, as `Gotoh.SeventhRowThrows` shows.
- Gotoh.GotohAlignmentSucceeds: the traceback never throws with exact sums. In binary64 and as written, `run` of seven frames against none throws (`Gotoh.RoundedBorderThrows`). With the accumulated first column the one-column case never throws for any addition (`Gotoh.AccumulatedBorderAligns`). The interior in binary64 is not proved.
- Gotoh.Align: the alignment is of exact scores. In binary64 and as written it does not exist for seven frames against none.
- Gotoh.Gotoh.Traceback: equals `Align` on matrices filled with exact sums. The binary64 one-column walk is `Gotoh.RunAgainstNone`.
- Gotoh.Gotoh.Run: returns `Align` with exact sums. In binary64 it throws for seven frames against none, as the finding below records.
- `width * height * 3` is an unbounded integer, so 32-bit overflow of image sizes is not modelled.
- The Compose UI and text measurement are not modelled. Measurement is a function parameter of the auto-size text.
- The onNavigate callback of the navigator is a counter of the times it fires.
- FrameNavigation.FrameNavigation.JumpToPercentage: the percentage is a real, so a NaN argument is not modelled. In Kotlin NaN passes the range check, and `roundToInt` then throws.
- VideoGenerator.VideoGeneratorImpl.LoadFrame: after `save` has released the recorder, the model still records the frame. In the program the released recorder would fail.
- AutoSizeText: string lengths count Unicode scalar values, while Kotlin's `length` and `substring` count UTF-16 code units (GUI/src/main/kotlin/ui/components/general/AutoSizeText.kt:103, 116). Text outside the Basic Multilingual Plane is trimmed differently.
- `getSizeOfVideoReference` and `getSizeOfVideoCurrent` of the GUI's FrameGrabber read the grabbers' frame counts. They are left out with the grabbers.
- DivideAndConquer.DivideAndConquerAligner.Run: the `alignment` field after a failing run is not specified.
- DivideAndConquer.DivideAndConquerAligner.Run, RunList, RunArray and GetHashes, and Iterators.ResettableArrayListIterator.Take and ToList: they iterate with the corrected `hasNext` and mark duplicates with the corrected `markDuplicates`. As written, `run(ArrayList, ArrayList)` wraps the lists in ResettableArrayListIterator, whose `hasNext` drops each list's last frame from the hashing. The production path hands the aligner IterableFrameGrabber, whose `hasNext` (`image != null`, DifferenceGenerator/src/main/kotlin/wrappers/IterableFrameGrabber.kt:21-23) is correct. The frame grabber is not part of this model.
- DifferenceGenerator.GenerateDifference: the `alignment` field of the generator is not kept.
- The 14-element DNA alignment of the Gotoh test is not reproduced. That concrete case is too large for the verifier to unfold. Small concrete cases, `SingletonIsMatch` and `LastNeverPerfect`, stand in for what it checks.
- The tuning driver's optimiser plumbing is not modelled: optuna's sampling, the sqlite store, the subprocess and the `float()` conversion of the score.
  - The objective's outputs are a function parameter.
  - The trials' results are a sequence parameter.
  - The study settings (`GotohStudy`) and the sampled ranges (`SearchSpace`) are constants without contracts.
- The DifferenceGenerator test reads the gap-penalty properties but builds its aligner with constants. The model therefore does not connect the tuned penalties to an aligner.
- Iterators.ResettableArrayListIterator.Size and Iterator have no contracts of their own, since the list is a `const` and `iterator()` is the object itself.

## Findings

| source | as written | input that shows it | evidently intended | confidence | as-written member | corrected member |
|---|---|---|---|---|---|---|
| DifferenceGenerator/src/main/kotlin/wrappers/ResettableArrayListIterator.kt:22-24 | `hasNext()` is `index < arr.size - 1`, true only while two elements are left | a `for` loop over a one-element list visits nothing, and over any list never reaches the last element | `index < arr.size`, "an element is left", as ResettableIterable documents | not executed | Iterators.ResettableArrayListIterator.HasNextAsWritten | Iterators.ResettableArrayListIterator.HasNext |
| DifferenceGenerator/src/main/kotlin/algorithms/Gotoh.kt:64-69 | `run` over iterables casts `toList()` to ArrayList | an iterable with one frame (or none) left: Kotlin's `toList()` returns a singleton (or the empty) list, and the cast throws ClassCastException | copy the elements into a new ArrayList | not executed | Gotoh.Gotoh.RunIterableAsWritten | Gotoh.Gotoh.RunIterable |
| DifferenceGenerator/src/main/kotlin/algorithms/Gotoh.kt:89-93 | the first column is `gapOpenPenalty + (i - 1) * gapExtensionPenalty`, while the traceback at lines 196-206 tests `gapA[i][j] == gapA[i - 1][j] + gapExtensionPenalty`; in binary64 the two differ | `run` of seven frames against no frames, at the default penalties 0.2 and -0.8: gapA[7][0] is -4.6000000000000005 but gapA[6][0] - 0.8 is -4.6, so the walk turns to MATCH at (6, 0) and reads `similarityM[5][-1]`, throwing ArrayIndexOutOfBoundsException | accumulate the border, `gapA[i][0] = gapA[i - 1][0] + gapExtensionPenalty` (and the same for gapB in row 0), so the test repeats the addition that built the cell | not executed | Gotoh.RoundedBorderThrows | Gotoh.AccumulatedBorderAligns |
| DifferenceGenerator/src/main/kotlin/algorithms/DivideAndConquerAligner.kt:116-130 | `duplicates.plus(j)` and `duplicates.plus(i)` return new sets that are dropped, so `duplicates` stays empty and no hash is marked | a reference video whose frame repeats, [x, x], against a current video [x]: both reference frames are matched to current frame 0, so the second `take` gets count -1 and throws IllegalArgumentException | `duplicates += ...` (a mutable set), so every repeated hash is emptied and skipped by `findMatches` | not executed | DivideAndConquer.DivideAndConquerAligner.MarkDuplicatesAsWritten | DivideAndConquer.DivideAndConquerAligner.MarkDuplicates |

For the first finding:

- `Iterators.ForLoopAsWrittenDropsLast` and `Iterators.ForLoopAsWrittenSkipsSingleton` prove the as-written loop's behaviour.
- `Iterators.ForLoopVisitsRest` proves the corrected one.
- The rest of the model iterates with the corrected `hasNext`.

For the third finding, the rest of the model fills and walks the matrices with exact sums. With exact sums the closed-form border equals the accumulated one (`Gotoh.AccumulatedGapExact`), so the Gotoh results there are the corrected program's.

For the fourth finding:

- `DivideAndConquer.RepeatedFrameThrows` proves the as-written behaviour on [x, x] against [x].
- `DivideAndConquer.MarkedMatchesUnique` and `DivideAndConquer.RepeatedFrameUnmatched` prove the corrected marking.
- The aligner's `run` marks with the corrected `markDuplicates`. Crossing matches still throw (`DivideAndConquer.CrossingMatchesThrow`), since marking does not reorder them.

For the second finding:

- `Gotoh.SingleFrameCastFails` shows the failing cast.
- The list-based `run` aligns the same input.
