# Bayesian text segmentation: a verified model of the core

This project is a Dafny model of the exact-inference core of a Bayesian text
segmenter (the `edu.mit.nlp.segmenter.dp` dynamic-programming segmenter, the
`in.aesh.segment` value types and helpers, and their `segmentation` package
counterparts).

A document is a list of sentences, and each sentence is a list of tokens.
- `DPDocument` keeps one cumulative word multiset per sentence. It counts a
  word over a run of sentences by subtracting two cumulative counts.
- `DPSeg.bestSegmentationOf` finds the best split of a document into K
  contiguous segments with a dynamic program. It then reads the split back
  from backpointers.
- `DPSeg.segment` runs that program on every document.
- `estimateConcentrationParameter` alternates optimizer rounds with
  re-segmentation in a hard-EM loop.

Around this core sit:
- the `Segment`, `Segmentation` and `Segmentations` value classes;
- the memo caches (`Utils.memoize`, `FastGamma`, `FastDigamma`);
- stop-word filtering, the two `clean` normalisers and `NullStemmer`.

Modules, one per file:

| file | module | models |
|---|---|---|
| `failures.dfy` | `Failures` | the Java exceptions as a `Result` error, and `Option` |
| `decimal.dfy` | `Decimal` | decimal rendering and parsing of naturals (`Integer.toString`) |
| `segment.dfy` | `Segments` | both `Segment` classes: the checked constructor, `equals`, `hashCode` with 32-bit wrap-around, `toString` |
| `segmentation.dfy` | `SegmentationValue` | both `Segmentation` classes: the lengths constructor with prefix-sum starts, `toArray`, `toList`, `size`, `toString` |
| `document.dfy` | `DocumentStats` | `DPDocument`: cumulative multisets, vocabulary, `countWordInSegment`, `countWordsInSegment` |
| `dynamic_program.dfy` | `DynamicProgram` | `bestSegmentationOf`: a recursive specification of the optimal score (`Best`) and the imperative table-filling and reconstruction proved against it |
| `dpseg.dfy` | `DPSegmenter` | the `DPSeg` constructor, `segment` and `computeOverDocuments` |
| `hard_em.dfy` | `HardEM` | the control flow of `estimateConcentrationParameter`, with the optimizer as a parameter |
| `memoize.dfy` | `Memoization` | `Utils.memoize` (both copies) as a cache state threaded through calls |
| `special_function_caches.dfy` | `SpecialFunctionCaches` | `FastGamma` and `FastDigamma` |
| `text_cleaning.dfy` | `TextCleaning` | `Utils.clean`, the wrapper's `clean`, and both `removeStopwords` |
| `null_stemmer.dfy` | `NullStemming` | `NullStemmer` |
| `segmentations.dfy` | `ReferenceSegmentations` | both `Segmentations` classes: `getItems`, `getSegmentCounts`, `getMeanSegmentCounts` |

Modelling choices:
- The score of a segment, `DirichletMultinomial.logLikelihood(α, counts)`, is
  an abstract function `score(start, length): real`. In `DPSegmenter` it is any
  function of the segment's word counts.
- The sentinel `-Double.MAX_VALUE` is modelled as −∞. The datatype is
  `Score = NegInf | Fin(real)`, and Java's strict `>` is `Beats`.
- The 2-D Java arrays become sequences of rows. An unset `Segment[][]` cell is
  `None`.
- A Java exception is an `Err` carrying its class: `IllegalArgument`,
  `IllegalState`, `IndexOutOfBounds`, `NullPointer` or `NegativeArraySize`.
- `bestSegmentationOf` is modelled for every K, not just 1 ≤ K ≤ T. Each out-of-range K
  raises the exception the Java code reaches (`DynamicProgram.Outcome`):
  - K < −1 gives `NegativeArraySize` from the array allocation.
  - K = −1 with T = 0 runs none of the loops and reaches `new ArrayList<>(-1)`, giving `IllegalArgument`.
  - K = −1 with T ≥ 1 gives `IndexOutOfBounds`.
  - K = 0 and K = T + 1 give `NullPointer`.
  - K ≥ T + 2 gives `IndexOutOfBounds`.
- `HashMap` iteration order, which `segment` and `computeOverDocuments`
  depend on, is an explicit `order` parameter.
- `getId` and `getSegmentationType` are the `id` and `segmentationType` fields
  of the `Segmentations` datatype.

## Model

| member | source | states |
|---|---|---|
| `Segments.NewSegment` | src/main/java/in/aesh/segment/Segment.java:10-15 | Construction succeeds iff start ≥ 0 and length > 0. A built segment stores both unchanged. A rejected one raises IllegalArgumentException. |
| `Segments.NewSegmentRebuilds` | src/main/java/edu/mit/nlp/segmenter/dp/Segment.java:10-15 | Every valid segment is accepted again from its own fields, and (0, 1) is accepted. |
| `Segments.EqualsIsValueEquality` | src/main/java/in/aesh/segment/Segment.java:18-27 | `equals` holds iff start and length both match. It is reflexive, symmetric and transitive, and false for non-segments and null. |
| `Segments.ToInt32` | src/main/java/in/aesh/segment/Segment.java:30-35 | Java `int` wrap-around: the result is in [-2^31, 2^31) and congruent to the input mod 2^32. |
| `Segments.HashCodeAgreesWithEquals` | src/main/java/in/aesh/segment/Segment.java:30-35 | Equal segments have equal hash codes. Without overflow, the hash is 67·(67·5 + start) + length. |
| `Segments.HashCodeInjectiveWhenSmall` | src/main/java/in/aesh/segment/Segment.java:30-35 | With lengths below 67 and no overflow, equal hash codes imply equal segments. |
| `Segments.ToStringRoundTrip` | src/main/java/in/aesh/segment/Segment.java:37-40 | `"(start,length)"` parses back to exactly the segment's start and length. |
| `Decimal.ParseNatToString` | src/main/java/in/aesh/segment/Segmentation.java:49 | Decimal rendering of a natural number is inverted by decimal parsing. |
| `Decimal.NatToStringInjective` | src/main/java/in/aesh/segment/Segmentation.java:49 | Distinct naturals render to distinct strings. |
| `SegmentationValue.FromLengths` | src/main/java/in/aesh/segment/Segmentation.java:13-19 | The lengths constructor succeeds iff every length is positive. Otherwise the Segment precondition raises IllegalArgumentException. It builds one segment per length, and segment i starts at the sum of lengths 0..i-1. |
| `SegmentationValue.FromLengthsToArray` | src/main/java/in/aesh/segment/Segmentation.java:13-33 | Round trip: `new Segmentation(ls).toArray()` gives back `ls` for every all-positive `ls`. |
| `SegmentationValue.FromLengthsPartitions` | src/main/java/in/aesh/segment/Segmentation.java:13-19 | The segments built from lengths tile [0, sum of lengths): the first starts at 0 and each starts where the previous ends. |
| `SegmentationValue.PartitionRebuiltFromLengths` | src/main/java/in/aesh/segment/Segmentation.java:13-33 | Reverse round trip: a tiling segment list is rebuilt exactly from its own `toArray`. |
| `SegmentationValue.StartIsPrefixSum` | src/main/java/in/aesh/segment/Segmentation.java:15-17 | In any tiling from 0, segment i starts at the sum of the first i lengths. |
| `SegmentationValue.PartitionsSumToEnd` | src/main/java/edu/mit/nlp/segmenter/dp/DPSeg.java:82-83 | The lengths of a tiling of [0, n) sum to n. |
| `SegmentationValue.ToArray` | src/main/java/edu/mit/nlp/segmenter/dp/Segmentation.java:19-23 | `toArray` has one entry per segment: the segment lengths in list order. |
| `SegmentationValue.ToList` | src/main/java/in/aesh/segment/Segmentation.java:35-40 | `toList` has the same elements, in the same order, as `toArray`. |
| `SegmentationValue.LengthListMatches` | src/main/java/edu/mit/nlp/segmenter/dp/Segmentation.java:25-30 | The collected length list equals the length array, element by element. |
| `SegmentationValue.Size` | src/main/java/in/aesh/segment/Segmentation.java:42-44 | `size` is the number of segments, which is also the length of `toArray`. |
| `SegmentationValue.ParseJoinedRoundTrip` | src/main/java/edu/mit/nlp/segmenter/dp/Segmentation.java:33-37 | A non-empty list of non-negative integers joined with `", "` splits and parses back to the same list. |
| `SegmentationValue.ToStringRoundTrip` | src/main/java/in/aesh/segment/Segmentation.java:46-51 | `"[" + lengths joined by ", " + "]"` parses back to exactly `toArray`. |
| `DocumentStats.Cumulative` | src/main/java/edu/mit/nlp/segmenter/dp/DPDocument.java:49-54 | There is one cumulative multiset per sentence, including empty sentences. Entry t is the multiset union of sentences 0..t. |
| `DocumentStats.CumulativeMonotone` | src/main/java/edu/mit/nlp/segmenter/dp/DPDocument.java:49-54 | Entry t is contained in entry t+1, and the two differ by exactly sentence t+1. |
| `DocumentStats.Vocabulary` | src/main/java/edu/mit/nlp/segmenter/dp/DPDocument.java:57-58 | The vocabulary contains each token of the document exactly once and nothing else, in first-occurrence order. |
| `DocumentStats.CountWordInSegment` | src/main/java/edu/mit/nlp/segmenter/dp/DPDocument.java:71-78 | The count fails with IndexOutOfBoundsException iff the segment ends past the last sentence. |
| `DocumentStats.CountWordMatchesDirectCount` | src/main/java/edu/mit/nlp/segmenter/dp/DPDocument.java:71-78 | On a built document, the count equals a direct count of the word over sentences [start, start+length). Past the end it is IndexOutOfBounds. |
| `DocumentStats.DifferenceIsDirectCount` | src/main/java/edu/mit/nlp/segmenter/dp/DPDocument.java:72-76 | Subtracting the cumulative count before the segment from the one at its last sentence gives the direct count. |
| `DocumentStats.EmptySentencesCountZero` | src/main/java/edu/mit/nlp/segmenter/dp/DPDocument.java:71-78 | Over empty sentences every word counts 0. |
| `DocumentStats.CountWordsInSegment` | src/main/java/edu/mit/nlp/segmenter/dp/DPDocument.java:80-84 | There is one count per vocabulary entry, in vocabulary order, each equal to `countWordInSegment`. It fails iff the segment is out of range and the vocabulary is non-empty. |
| `DocumentStats.CountsSumToTokens` | src/main/java/edu/mit/nlp/segmenter/dp/DPDocument.java:80-84 | Because the vocabulary covers every token, the counts of an in-range segment sum to the number of tokens in it. |
| `DynamicProgram.FeasibleIff` | src/main/java/edu/mit/nlp/segmenter/dp/DPSeg.java:56-62 | The optimal score of i segments ending at `end` is finite iff i = end = 0 or 1 ≤ i ≤ end. So the base cells `[0][end>0]` and `[i][end<i]` are −∞. |
| `DynamicProgram.ScanFacts` | src/main/java/edu/mit/nlp/segmenter/dp/DPSeg.java:64-72 | The ascending scan with strict `>` returns a score no candidate beats, together with the smallest start attaining it: it strictly beats every earlier candidate. The start is -1 exactly when no candidate is finite. |
| `DynamicProgram.LastSegment` | src/main/java/edu/mit/nlp/segmenter/dp/DPSeg.java:63-75 | The recurrence: the backpointer ends at `end`, its start is feasible for i-1 segments, and that cell's score plus the segment's score is the cell's optimum. |
| `DynamicProgram.OptimalAchievesBest` | src/main/java/edu/mit/nlp/segmenter/dp/DPSeg.java:78-87 | The read-back partition has exactly i segments, tiles [0, end), and its total score equals the optimal score. |
| `DynamicProgram.NoPartitionBeatsBest` | src/main/java/edu/mit/nlp/segmenter/dp/DPSeg.java:59-76 | Every partition of [0, end) into \|p\| segments has a finite optimum at least its own total. |
| `DynamicProgram.OptimalLastStartsEarliest` | src/main/java/edu/mit/nlp/segmenter/dp/DPSeg.java:66-72 | Among optimal partitions, the chosen last segment starts no later than any other optimal partition's last segment. |
| `DynamicProgram.SegmentScores` | src/main/java/edu/mit/nlp/segmenter/dp/DPSeg.java:48-54 | The `segLLs` table is (T+1)×(T+1) and holds `score(start, length)` for every segment inside the document. |
| `DynamicProgram.ScanStarts` | src/main/java/edu/mit/nlp/segmenter/dp/DPSeg.java:64-74 | The inner loop over starts computes the cell's optimum and the earliest start attaining it. |
| `DynamicProgram.FillRow` | src/main/java/edu/mit/nlp/segmenter/dp/DPSeg.java:59-76 | Row i gets −∞ below the diagonal and the optimum with its backpointer elsewhere. It fails with IndexOutOfBounds iff i > T+1. |
| `DynamicProgram.Reconstruct` | src/main/java/edu/mit/nlp/segmenter/dp/DPSeg.java:78-87 | Walking the backpointers from `[K][T]`, with the remaining mass as T minus the lengths taken so far, yields exactly the optimal partition. |
| `DynamicProgram.BestSegmentationOf` | src/main/java/edu/mit/nlp/segmenter/dp/DPSeg.java:43-88 | It succeeds iff 1 ≤ K ≤ T, returning K segments that tile [0, T) and whose total is at least that of every K-segment tiling. Otherwise it raises the exception the Java code reaches for that K. `IllegalArgument` (from `new ArrayList<>(-1)`) is raised exactly when K = −1 and T = 0. |
| `DPSegmenter.NewDPSeg` | src/main/java/edu/mit/nlp/segmenter/dp/DPSeg.java:33-41 | The constructor succeeds iff every text key has a segment count. It then builds one document per text, with `sentenceCount` equal to the number of sentences. Each document is exactly the `DPDocument` built from that text's sentences (`DocumentStats.Build`). |
| `DPSegmenter.Segment` | src/main/java/edu/mit/nlp/segmenter/dp/DPSeg.java:95-105 | `segment` succeeds iff every document's dynamic program does. It then has exactly one entry per document key, each being `bestSegmentationOf` for that key's count. The result is a function of the inputs, so repeating the call gives the same result. |
| `DPSegmenter.SegmentSpecProperties` | src/main/java/edu/mit/nlp/segmenter/dp/DPSeg.java:97-102 | Over any key order: success iff every document succeeds; the keys are the order's keys; each value is that document's best segmentation; a failure is some document's own exception. |
| `DPSegmenter.SegmentSpecStep` | src/main/java/edu/mit/nlp/segmenter/dp/DPSeg.java:97-102 | One more key either propagates an earlier exception, raises this document's exception, or adds this document's segmentation. |
| `DPSegmenter.SegmentSpecPrefixFails` | src/main/java/edu/mit/nlp/segmenter/dp/DPSeg.java:97-102 | Once a document throws, the later documents do not change the outcome. |
| `DPSegmenter.DocumentSumIsTotal` | src/main/java/edu/mit/nlp/segmenter/dp/DPSeg.java:177-181 | For in-range segments, the per-document sum in `computeOverDocuments` is the same total score the dynamic program maximises. |
| `DPSegmenter.SegmentMaximisesObjective` | src/main/java/edu/mit/nlp/segmenter/dp/DPSeg.java:175-183 | The objective summed over documents is at least as large for `segment`'s output as for any other assignment of valid K-segment tilings. |
| `DPSegmenter.ComputeOverDocumentsAgree` | src/main/java/edu/mit/nlp/segmenter/dp/DPSeg.java:175-183 | The objective depends only on the segmentations of the documents summed over. |
| `HardEM.RoundsRunBounds` | src/main/java/edu/mit/nlp/segmenter/dp/DPSeg.java:126-144 | The reference loop runs between 1 and cap rounds. Every round but the last completed and improved. If it stops before the cap, the last round threw or did not improve. |
| `HardEM.EstimateAsWritten` | src/main/java/edu/mit/nlp/segmenter/dp/DPSeg.java:122-146 | The loop as written, with `iteration` incremented twice per pass, makes at most 11 optimizer calls. It stops at the first throw or non-improvement and returns the last round's ln α. |
| `HardEM.Estimate` | src/main/java/edu/mit/nlp/segmenter/dp/DPSeg.java:122-146 | The loop with one increment per pass makes at most 20 optimizer calls, with the same stopping rule and result. |
| `HardEM.AcceptedRoundsImprove` | src/main/java/edu/mit/nlp/segmenter/dp/DPSeg.java:136-144 | Across the rounds that let the loop continue, the log-likelihood strictly increases. |
| `HardEM.AlwaysImprovingRunsToCap` | src/main/java/edu/mit/nlp/segmenter/dp/DPSeg.java:126-144 | An optimizer that always improves runs the loop to its cap. |
| `HardEM.DoubleIncrementStopsAtEleven` | src/main/java/edu/mit/nlp/segmenter/dp/DPSeg.java:142-144 | With an always-improving optimizer, the as-written loop stops after 11 rounds, where a cap of 20 passes allows 20. |
| `Memoization.NewMemo` | src/main/java/in/aesh/segment/Utils.java:67-72 | `memoize(f, size, load)` fails iff the HashMap constructor rejects the sizing (negative capacity or non-positive load factor). Otherwise it starts with an empty cache over f. |
| `Memoization.Memoize` | src/main/java/segmentation/Utils.java:63-65 | `memoize(f)` starts with an empty, coherent cache over f. |
| `Memoization.SizingIsInvisible` | src/main/java/segmentation/Utils.java:63-71 | Any two accepted sizings, including the default one, give the same initial memo. |
| `Memoization.Apply` | src/main/java/in/aesh/segment/Utils.java:73-76 | `apply(x)` returns f(x) and caches x. Existing entries never change and the cache only grows. A repeat call leaves the cache unchanged. |
| `Memoization.ApplyAll` | src/main/java/segmentation/Utils.java:73-76 | A run of calls gives one answer per argument and keeps the cache coherent with f. |
| `Memoization.ApplyAllAnswers` | src/main/java/segmentation/Utils.java:73-76 | Every answer of a run of calls is f of its argument, whatever the cache held. |
| `Memoization.ApplyAllCache` | src/main/java/in/aesh/segment/Utils.java:71-76 | After a run, the cache keys are the old keys plus every argument, and the old entries are unchanged. |
| `Memoization.ApplyAllRepeat` | src/main/java/in/aesh/segment/Utils.java:73-76 | Repeating a run of calls answers the same and leaves the cache unchanged. |
| `Memoization.CachedRunIsStable` | src/main/java/in/aesh/segment/Utils.java:75 | Calls whose arguments are all cached do not change the cache. |
| `SpecialFunctionCaches.NewFastGamma` | src/main/java/edu/mit/util/stats/FastGamma.java:12-14 | A new FastGamma has an empty memo over lnΓ. |
| `SpecialFunctionCaches.NewFastGammaSized` | src/main/java/edu/mit/util/stats/FastGamma.java:16-18 | The sized constructor fails iff HashMap rejects the sizing. Otherwise it equals the default one, so the capacity hint does not affect results. |
| `SpecialFunctionCaches.LogGamma` | src/main/java/edu/mit/util/stats/FastGamma.java:20-22 | `logGamma(x)` is lnΓ(x). After the call x is memoized and other entries are unchanged. A repeat call leaves the memo unchanged. |
| `SpecialFunctionCaches.NewFastDigamma` | src/main/java/edu/mit/util/stats/FastDigamma.java:10-12 | A new FastDigamma has an empty memo over ψ. |
| `SpecialFunctionCaches.Digamma` | src/main/java/edu/mit/util/stats/FastDigamma.java:14-17 | `digamma(x)` is ψ(x). After the call x is memoized and other entries are unchanged. A repeat call leaves the memo unchanged. |
| `SpecialFunctionCaches.LogGammaTwice` | src/main/java/edu/mit/util/stats/FastGamma.java:20-22 | Two calls on a fresh FastGamma answer lnΓ of each argument and leave exactly those arguments memoized. Calling twice with the same argument caches it once. |
| `TextCleaning.Lower` | src/main/java/in/aesh/segment/Utils.java:118 | Lower-casing maps each character and keeps the length. Upper-case letters become lower-case rather than being dropped. |
| `TextCleaning.CollapseShape` | src/main/java/in/aesh/segment/Utils.java:123 | Trim-and-collapse leaves no leading space and no run of spaces, introduces only spaces, and keeps the non-whitespace characters in order. |
| `TextCleaning.SplitSqueeze` | src/main/java/in/aesh/segment/Utils.java:124 | The letter-apostrophe-letter replacement only inserts spaces: removing spaces gives the same text before and after. |
| `TextCleaning.SplitSpacing` | src/main/java/segmentation/wrappers/BayesSegWrapper.java:97 | The replacement never creates two adjacent spaces or a leading or trailing space. |
| `TextCleaning.WordsShape` | src/main/java/in/aesh/segment/Utils.java:123 | The words of a text, its maximal runs of non-whitespace characters, are non-empty and hold no whitespace. |
| `TextCleaning.TrimAndCollapseJoinsWords` | src/main/java/in/aesh/segment/Utils.java:123 | Trim-and-collapse equals the text's words joined by single spaces, for every input. Two visible characters end up one space apart exactly when whitespace separates them in the input. |
| `TextCleaning.SplitContractionsSpacesMatches` | src/main/java/in/aesh/segment/Utils.java:124 | The letter-apostrophe-letter replacement equals the input with exactly one space inserted before the apostrophe of each leftmost non-overlapping match. A match is one not overlapping a match that starts two characters earlier. Nothing else changes. |
| `TextCleaning.OverlappingMatchSkipped` | src/main/java/segmentation/wrappers/BayesSegWrapper.java:97 | Overlapping candidates are skipped as the regex scan skips them: `"a'b'c"` becomes `"a 'b'c"`. |
| `TextCleaning.CleanWith` | src/main/java/in/aesh/segment/Utils.java:117-125 | For any retained character class, the cleaned text has no leading, trailing or double spaces, and only retained non-whitespace characters or spaces. With spaces removed, it is exactly the retained characters of the lower-cased input. It equals the words of the filtered lower-cased text joined by single spaces, with one space before the apostrophe of each non-overlapping letter-apostrophe-letter match. |
| `TextCleaning.Clean` | src/main/java/in/aesh/segment/Utils.java:117-125 | On ASCII input, `clean` produces only a–z, space, `$` and `'`, with no leading, trailing or double spaces. Its non-space characters are exactly the lower-cased input's retained characters, in order. It is the filtered words joined by single spaces, with a space before the apostrophe of each non-overlapping contraction match. |
| `TextCleaning.CleanForWrapper` | src/main/java/segmentation/wrappers/BayesSegWrapper.java:89-98 | On ASCII input, the wrapper's `clean` produces only a–z, 0–9, space, `'`, `` ` `` and `$`, with the same spacing guarantees and character content. It is the same word-join and contraction spacing of its own filtered text. |
| `TextCleaning.CleanSplitsPossessive` | src/main/java/in/aesh/segment/Utils.java:124 | `clean("Sam's")` is `"sam 's"`. |
| `TextCleaning.CleanForWrapperKeepsDigits` | src/main/java/segmentation/wrappers/BayesSegWrapper.java:90-96 | `clean("Go\t 4")` is `"go 4"`: upper case is lowered, digits are kept, whitespace is collapsed. |
| `TextCleaning.RemoveStopwords` | src/main/java/in/aesh/segment/Utils.java:110-114 | A word is in the result iff it is in the input and not a stopword. |
| `TextCleaning.RemoveStopwordsKeepsOrder` | src/main/java/segmentation/wrappers/BayesSegWrapper.java:100-104 | Filtering commutes with concatenation and keeps a single word iff it is not a stopword, so order and multiplicity of kept words are preserved. |
| `TextCleaning.RemoveStopwordsIdentityAndIdempotent` | src/main/java/in/aesh/segment/Utils.java:110-114 | With no stopwords the result is the input, and filtering twice equals filtering once. |
| `NullStemming.StemWords` | src/main/java/segmentation/NullStemmer.java:14-16 | `stemWords` has the input's length, and entry i is `stemWord` of word i. |
| `NullStemming.StemmingIsIdempotent` | src/main/java/segmentation/NullStemmer.java:9-16 | `stemWord` is the identity, `stemWords` returns its input unchanged, and both are idempotent. |
| `ReferenceSegmentations.GetItems` | src/main/java/in/aesh/segment/Segmentations.java:26-39 | `getItems` succeeds iff every lengths array is all-positive, failing with IllegalArgumentException otherwise. It keeps the item keys and each item's coder keys, and each Segmentation has one segment per length. |
| `ReferenceSegmentations.GetItemsRoundTrip` | src/main/java/segmentation/Segmentations.java:25-40 | Each Segmentation of `getItems` gives back the coder's lengths array through `toArray`. |
| `ReferenceSegmentations.GetSegmentCounts` | src/main/java/segmentation/Segmentations.java:42-50 | `getSegmentCounts(c)` succeeds iff every item has coder c, failing with NullPointerException otherwise. Its keys are the item keys and each value is the length of c's array. |
| `ReferenceSegmentations.SegmentCountsAreSizes` | src/main/java/in/aesh/segment/Segmentations.java:26-47 | `getSegmentCounts(c)[id]` equals `getItems()[id][c].size()`. |
| `ReferenceSegmentations.TotalLengthBounds` | src/main/java/in/aesh/segment/Segmentations.java:52-53 | If every coder's count is in [lo, hi], the sum over the n coders is in [lo·n, hi·n]. |
| `ReferenceSegmentations.RoundedMean` | src/main/java/in/aesh/segment/Segmentations.java:56 | The rounded mean r of total/n is the nearest integer with halves rounded up: 2nr ≤ 2·total + n < 2n(r+1). |
| `ReferenceSegmentations.RoundedMeanBetween` | src/main/java/in/aesh/segment/Segmentations.java:52-56 | Rounding the mean of values in [lo, hi] stays in [lo, hi]. |
| `ReferenceSegmentations.GetMeanSegmentCounts` | src/main/java/in/aesh/segment/Segmentations.java:49-58 | `getMeanSegmentCounts` succeeds iff every item has at least one coder, failing with IllegalStateException otherwise. Its keys are the item keys. |
| `ReferenceSegmentations.MeanBetweenCoders` | src/main/java/in/aesh/segment/Segmentations.java:49-58 | Each item's mean count lies between the smallest and the largest coder count for it. |
| `ReferenceSegmentations.MeanOfAgreeingCoders` | src/main/java/in/aesh/segment/Segmentations.java:49-58 | When all coders of every item agree on the count, the mean counts equal any one coder's `getSegmentCounts`. |

## Left out

- `DirichletMultinomial`, `FastDCM`, and the real lnΓ and ψ (CERN, aliasi, Apache Commons Math): these are floating-point special functions. The segment score and the cached functions are abstract parameters.
- `LBFGSWrapper`, the `Optimizable` inner class and `Math.exp(lnα)`: this is the external L-BFGS optimizer and floating point. `HardEM` takes the outcome of each `optimize()` call as a parameter. The `segment(α)` re-run inside the loop is not modelled, since its result affects only the next optimizer call.
- Floating-point arithmetic in the dynamic program: scores are exact reals.
  - `-Double.MAX_VALUE + x`, which is finite in Java, is −∞ here. A score would have to come within rounding of `-Double.MAX_VALUE` to tell the two apart.
  - The same holds for the improvement test, which treats the starting `-Double.MAX_VALUE` as beaten by any first round.
- Java `int` overflow is modelled only where it is reachable from small inputs: `Segment.hashCode` (`Segments.ToInt32`). Sentence counts, lengths and their sums are unbounded integers.
- `ReferenceSegmentations.RoundedMean`: models `Math.round` on the exact mean, not on the `(float)` cast of it. For counts large enough that the float cast rounds, the result may differ.
- `ReferenceSegmentations.GetMeanSegmentCounts`: its sum over coders is a ghost definition, because a map has no iteration order in Dafny. The mean itself is stated exactly.
- `TextCleaning.Clean`: requires ASCII input. Unicode lower-casing and Guava's `CharMatcher` tables for non-ASCII characters are not modelled.
- `TextCleaning.CleanForWrapper`: requires ASCII input for the same reason.
- `TextCleaning.Lower`: models `toLowerCase()` under a root or English default locale. Under a Turkish locale `'I'` becomes the dotless `'ı'` (U+0131), which `JAVA_LOWER_CASE` keeps; that is not modelled.
- `Memoization.Apply`: a function returning `null` makes `computeIfAbsent` cache nothing. The wrapped function here always returns a value. Keys are exact reals, so the behaviour of `NaN` and `-0.0` as `Double` keys is not modelled either.
- The state left behind when an exception escapes `segment` (the entries already put into the `segmentations` field) is not modelled. Only the thrown exception is.
- `segmentation.Segmentation`, which `segmentation/Segmentations.java` uses, is not part of this model. The `in.aesh.segment.Segmentation` model stands in for it.
- `DPDocumentMap`, `DPDocumentList`, both `Main` classes, `BayesSegmenter`, both `Segmenter` interfaces, `TextWrapper`, `Stemmer`, the Porter and MIT stemmers, `StreamUtils`, the `loadText`/`loadTexts`/`loadWords` file readers and the Guava collector helpers: these are command-line glue, I/O, or code outside this core.
- `NullStemming.StemmingIsIdempotent`: the identity needs no proof, so this lemma documents the property rather than proving anything beyond the definitions.

## Findings

| source | as written | input that shows it | evidently intended | confidence | as-written member | corrected member |
|---|---|---|---|---|---|---|
| src/main/java/edu/mit/nlp/segmenter/dp/DPSeg.java:142-144 | `iteration` is incremented in the loop body and again by `iteration++ < 20` in the loop condition, so each pass counts twice and the loop stops after 11 optimizer rounds | an optimizer whose log-likelihood improves on every round: the loop stops after round 11 (`HardEM.DoubleIncrementStopsAtEleven`) | a cap of 20 passes, one increment per pass | medium; not executed | `HardEM.EstimateAsWritten` | `HardEM.Estimate` |
