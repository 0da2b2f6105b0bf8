# Rap transcript scoring engine, modelled in Dafny

This project models the scoring engine of the FreeStyle Rap Analyzer (`app.py`). The engine takes a transcript: an ordered list of timed words, each with a text, a start time, an end time and a confidence. From it the engine computes five sub-metrics:

- **rhyme density**: rhyme pairs per word. Two words rhyme when their last three characters, lowercased, are equal. Every pair of positions `i < j` is compared.
- **flow speed**: the average word duration, mapped to a rating from 1 to 10 by a chain of thresholds. An empty transcript gets 0.
- **word complexity**: distinct texts per word.
- **confidence**: one minus the share of words whose confidence is below 0.8.
- **emphasis**: the number of distinct texts that occur more than once, per word.

These are blended with fixed weights (30/20/20/20/10), scaled by ten and clamped to 0..10. The speed rating enters the blend on its own 0..10 scale, so speed alone can reach the ceiling.

Modules, one per part of the engine:

- `TimedWords` (`timed_words.dfy`): the `Word` record and the guarded ratio "count / words, or 0 when there are none".
- `Rhymes` (`rhymes.dfy`): ASCII lowercasing, the last-three-characters key, and the nested-loop pair enumeration.
- `Flow` (`flow.dfy`): durations, the average, the threshold chain.
- `Vocabulary` (`vocabulary.dfy`): the distinct-text set, the low-confidence filter, the count map and the repeated texts.
- `Rating` (`rating.dfy`): rhyme density, the weighted and clamped overall rating, and a worked example.

Modelling choices:

- Times and confidences are Dafny `real`s, so arithmetic is exact.
- Strings are `seq<char>`, and `.lower()` is ASCII lowercasing.
- The Python slice `s[-3:]` is "the last `min(3, |s|)` characters".
- `find_rhyme_pairs` is modelled in two layers. The first is the list of index pairs its two loops visit, in visiting order. The second projects those index pairs to pairs of words. Stating soundness and completeness over positions is exact even when texts repeat.
- The pair loops compare precomputed rhyme keys. This gives the same result as recomputing each key inside the loop, as the source does.

## Model

| member | source | states |
|---|---|---|
| TimedWords.Ratio | app.py:127-146 | The guarded division every metric uses: 0 for no words; otherwise the ratio times the word count gives back the count, it lies in [0,1] when the count does not exceed the words, and it is 0 or 1 exactly when the count is 0 or all words |
| Rhymes.LowerChar | app.py:69 | `.lower()` on one character: A-Z move up by 32 to a-z, every other character is kept, and the result is never an upper-case ASCII letter |
| Rhymes.Lower | app.py:69 | `.lower()` on a string keeps its length, lowers each character in place, and leaves the string unchanged exactly when it has no upper-case ASCII letter |
| Rhymes.LastThree | app.py:69 | The slice `w[-3:]` has length min(3, \|w\|) and is the suffix of the word of that length |
| Rhymes.RhymeKey | app.py:69 | The key `w[-3:].lower()` has min(3, \|w\|) characters and is the lowercased suffix of the word of that length |
| Rhymes.RhymeKeyIgnoresCase | app.py:69 | Comparison is case-insensitive: lowering a word first does not change its rhyme key, and the key has min(3, \|w\|) characters |
| Rhymes.ShortWordsRhymeOnlyAtEqualLength | app.py:69 | A word shorter than three characters rhymes only with words of the same short length, because the whole word is its key |
| Rhymes.InnerPairsExact | app.py:68-70 | The inner loop for position i reports exactly the later positions whose key equals that of i, in increasing order, at most one per remaining position |
| Rhymes.OuterPairsExact | app.py:67-70 | The outer loop from position i reports exactly the equal-key pairs whose first position is at least i, in strictly lexicographic order |
| Rhymes.RhymeIndexPairs | app.py:66-71 | A position pair (i, j) is reported if and only if i < j < n and the two words rhyme; pairs come in strictly lexicographic (i, j) order, so none is reported twice |
| Rhymes.FindRhymePairs | app.py:63-71 | The returned list has one entry per rhyming position pair, and entry k is the two words at the k-th rhyming pair |
| Rhymes.FindRhymePairsSoundComplete | app.py:67-70 | Every returned word pair rhymes, and the words at any two rhyming positions i < j appear as a returned pair |
| Rhymes.IdenticalWordsPair | app.py:69-70 | Two occurrences of the same word always form a rhyme pair |
| Rhymes.RhymePairsTransitive | app.py:69-70 | If (i, j) and (j, k) are reported then so is (i, k) |
| Rhymes.RhymePairCountBound | app.py:67-70 | For n words at most n(n-1)/2 pairs are reported |
| Rhymes.AllRhymingPairCount | app.py:67-70 | When all words share one rhyme key, exactly n(n-1)/2 pairs are reported |
| Rhymes.FlowGlowDogPairs | app.py:63-71 | For "flow", "glow", "dog" the result is the single pair ("flow", "glow") |
| Flow.TotalDuration | app.py:81-84 | The sum of the durations `end - start`; a single word's total is its own duration |
| Flow.TotalDurationAppend | app.py:81-84 | The total splits over any cut of the transcript: the total of a + b is the total of a plus the total of b |
| Flow.AverageDuration | app.py:84 | The average times the number of words gives back the total duration |
| Flow.SpeedOfAverage | app.py:87-106 | The threshold chain always yields a rating between 1 and 10 |
| Flow.RapSpeed | app.py:77-106 | The speed rating is 0 exactly for an empty transcript, and between 1 and 10 otherwise |
| Flow.SpeedStepFormula | app.py:87-106 | The chain equals the step function clamp(11 - floor(10 * avg), 1, 10) |
| Flow.SpeedNonIncreasing | app.py:87-106 | A longer average duration never gives a higher rating |
| Flow.SpeedBoundaries | app.py:87-106 | An average below 0.2 gives 10, exactly 0.2 gives 9 (the bound is strict), and 1.0 or more gives 1 |
| Flow.AllFastWordsRateTen | app.py:81-88 | If every word lasts under 0.2 s, the transcript rates 10 |
| Flow.AllSlowWordsRateOne | app.py:81-106 | If every word lasts at least 1 s, the transcript rates 1 |
| Flow.RapSpeedPointwiseMonotone | app.py:81-106 | Lengthening every word of a transcript never raises its speed rating |
| Flow.RapSpeedShiftInvariant | app.py:81 | Only durations matter: moving all timestamps by the same offset leaves the rating unchanged |
| Vocabulary.TextSet | app.py:134 | The set of texts contains every word's text, has at most n elements, and has at least one element for a non-empty transcript |
| Vocabulary.TextSetWitness | app.py:134 | Every element of the set is the text of some word |
| Vocabulary.TextSetFullIffDistinct | app.py:134 | The set has n elements if and only if no text occurs twice |
| Vocabulary.WordComplexity | app.py:134-135 | Complexity is 0 for no words, and lies in (0, 1] otherwise |
| Vocabulary.ComplexityOneIffDistinct | app.py:134-135 | For a non-empty transcript, complexity is 1 if and only if all texts are distinct |
| Vocabulary.LowConfidenceWords | app.py:138 | The filter is empty exactly when no word is below 0.8, has every word exactly when all are below 0.8, and is never longer than the transcript |
| Vocabulary.LowConfidenceWordsExact | app.py:138 | As a multiset, the filter holds exactly the words below 0.8, each with its multiplicity in the transcript |
| Vocabulary.ConfidenceRating | app.py:138-139 | The rating lies in [0, 1]. For a non-empty transcript it is 1 exactly when no word is below 0.8, and 0 exactly when every word is |
| Vocabulary.WordCounts | app.py:142-144 | The count map's keys are exactly the distinct texts, and every count is at least 1 |
| Vocabulary.WordCountsExact | app.py:142-144 | Each count equals the number of occurrences of the text in the transcript (its multiplicity); a text with no count does not occur at all |
| Vocabulary.BumpShape | app.py:143-145 | Counting one more word raises "twice the repeated texts plus the single texts" by at most one |
| Vocabulary.CountShape | app.py:142-145 | Twice the number of repeated texts plus the number of single texts never exceeds n, since each repeated text uses at least two words |
| Vocabulary.RepeatedUseCounted | app.py:142-145 | A text that occurs at two positions is among the repeated texts |
| Vocabulary.EmphasisRating | app.py:142-146 | Emphasis is 0 for no words, and lies in [0, 1/2] |
| Vocabulary.EmphasisZeroIffDistinct | app.py:142-146 | For a non-empty transcript, emphasis is 0 if and only if no text occurs twice |
| Vocabulary.ComplexityPlusEmphasisAtMostOne | app.py:134-146 | Complexity plus emphasis never exceeds 1 |
| Rating.RhymeDensity | app.py:126-127 | Rhyme density is 0 for no words, never negative, and at most (n-1)/2 for n words |
| Rating.AllRhymingDensity | app.py:126-127 | When all words share one rhyme key, the density is exactly (n-1)/2 |
| Rating.DensityCanExceedOne | app.py:126-127 | Four identical words give a rhyme density of 1.5, so density is not bounded by 1 |
| Rating.Weighted | app.py:149-155 | The 30/20/20/20/10 blend; when no ratio is negative it is at least a fifth of the speed rating |
| Rating.WeightedMonotone | app.py:149-155 | All weights are non-negative: raising any sub-metric never lowers the blend |
| Rating.WeightsSumToOne | app.py:149-155 | The weights add up to one: all five sub-metrics at 1 blend to exactly 1 |
| Rating.RapRating | app.py:122-160 | The overall rating lies in [0, 10]. It is 0 for no words, at least 2 for any non-empty transcript, and exactly 10 whenever the speed rating is 5 or more |
| Rating.RatingAtLeastTwiceSpeed | app.py:149-158 | The overall rating is at least min(2 * speed rating, 10) |
| Rating.FlowGlowDogDensity | app.py:125-127 | In the example (flow, glow, dog) the only pair is ("flow", "glow"), so the density is 1/3 |
| Rating.FlowGlowDogDistinct | app.py:133-146 | In the example complexity is 1 and emphasis is 0 |
| Rating.FlowGlowDogConfidence | app.py:137-139 | In the example one word of three is below 0.8, so confidence is 2/3 |
| Rating.FlowGlowDogSpeed | app.py:80-106 | The example's durations 0.1, 0.1 and 0.7 average exactly 0.3, which is not below 0.3, so the speed is 8 |
| Rating.FlowGlowDogRating | app.py:149-160 | The example rates 10 |

## Left out

- Transcription (`transcribe_audio`, app.py:30-61): network client, file I/O and error reporting. The model takes the word list as its input.
- Response navigation (app.py:112-120): the response object is not modelled. A missing response returns 0 before any word list is built. A missing channel or alternative yields an empty word list, which also rates 0. The model covers both through its empty-transcript case.
- `analyze_rap` (app.py:219-275): display only. It recomputes the same metrics. Its preview of the distinct-word set depends on the set's iteration order, which is unspecified.
- Lyric comparison (app.py:280-294): a thin wrapper around `difflib.SequenceMatcher`, which is not part of this model. The remaining `> 70` test is trivial.
- User interface, page routing, temp-file handling and `.env` loading (app.py:11-28, app.py:162-217, app.py:296-319): glue code with no logic to model.
- Floating point: durations, averages and ratios are exact reals. Where IEEE rounding would change a threshold comparison, the model gives the exact-arithmetic answer. In the flow/glow/dog example the durations 0.1, 0.1 and 0.7 average exactly 0.3, which gives speed 8 (`Rating.FlowGlowDogSpeed`). The double computation lands on 0.3 as well, so it gives 8 too.
- Unicode case folding: `str.lower()` is modelled as ASCII lowercasing only.

## Notes on the code

Where the code and a plain reading of the engine's purpose differ, the model follows the code:

- Rhyme density is not a ratio in [0, 1]. The pair list can hold up to n(n-1)/2 entries, so the density can reach (n-1)/2 (see `Rating.DensityCanExceedOne`).
- Rhyme pairs are a list in loop order, not a set of unordered pairs. The same two texts can appear several times, once for each pair of positions where they occur.
- The comment at app.py:65 promises a match on "the last 2-3 letters". The code at app.py:69 compares only the full 3-character slices, so "ow" does not rhyme with "flow": a word shorter than three characters rhymes only with words of its own length (`Rhymes.ShortWordsRhymeOnlyAtEqualLength`).
- Emphasis never exceeds 1/2, because each repeated text uses at least two words.
- The engine does not validate its input. Words whose end precedes their start, and confidences outside [0, 1], are accepted and scored. The model places no precondition on them.
