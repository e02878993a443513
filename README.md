# Duplicate loan-application detection, modelled in Dafny

The system looks for duplicate loan applications in an event log. Each row of the log is one event of an application: its application number, the user (resource), the activity, the timestamp and the requested amount. The pipeline has five parts, and the model keeps each as its own module:

- **Detector** (`DuplicateDetection`, with `EventLog` and `StringOrder`). `detect_duplicates_optimized` groups the application numbers by length. It sorts each group and compares every key with the next 49 keys of its group, counting comparisons against a budget. A pair whose fuzzy similarity reaches the threshold is reported with features of the two traces: hours apart, same user, activity similarity, and the traces themselves.
- **Generator** (`KeyVariations`, `MixedDuplicates`). `create_mixed_duplicates` samples applications and splits the sample into a fuzzy-detectable group and a non-fuzzy-detectable group. It clones every sampled trace three times under a transformed key: a typo, an insertion or deletion, a transposition, or one of three reformats. Each clone gets a time offset and sometimes another user.
- **Detectability** (`Detectability`). `analyze_duplicate_detectability` marks, in place, the generated rows whose key the detector reported. It then computes the detection rate of each class.
- **Root cause and impact** (`RootCause`, `DuplicateImpact`). An ordered chain of six rules names the root cause of a reported pair. The impact analysis turns that label into a risk tier and a recommendation, and takes the larger requested amount as the potential financial impact.
- **Organisation** (`CompleteAnalysis`). `organize_duplicates_by_type` splits the generated rows into four groups: type times detection status. It also builds the summary table of counts and percentages.

How the model treats randomness and library code:

- Every random draw is an explicit input. The inputs are restricted to the ranges that `random.randint`, `random.choice` and `random.sample` guarantee.
- The string similarity of `rapidfuzz.fuzz.ratio` is the function parameter `ratio`.
- Python's string `hash` is the function parameter `hash`.
- Timestamps are whole seconds.

Where the code updates state step by step, the model is imperative Dafny, and each method is proved equal to a specification function. Examples: the length grouping and the three nested loops of the detector, the in-place marking of the generated table, the loops over the pairs. The properties of each specification function are proved as lemmas.

## Model

| member | source | states |
|---|---|---|
| EventLog.FirstOccurrences | detect_duplicates_optimized.py:19 | definition of `drop_duplicates`, keeping the first occurrence of each value; it keeps exactly the values of the input, each once; order in FirstOccurrencesOrder |
| EventLog.FirstOccurrencesOrder | detect_duplicates_optimized.py:19 | the kept values appear in the order of their first occurrence in the input |
| EventLog.UniqueKeys | create_mixed_duplicates.py:30 | the distinct application numbers of the table, each exactly once, and nothing else |
| EventLog.DistinctUsers | create_mixed_duplicates.py:62 | the distinct users of the table, each exactly once, and nothing else |
| EventLog.RowsOf | detect_duplicates_optimized.py:64-65 | definition of the row filter on the application number; properties in RowsOfSelects and RowsOfOccurrences |
| EventLog.RowsOfSelects | detect_duplicates_optimized.py:64-65 | the rows selected for a key are exactly the table's rows with that key |
| EventLog.RowsOfOccurrences | detect_duplicates_optimized.py:64-65 | each row with the key occurs in the selection as often as in the table, and no other row occurs |
| EventLog.SortByTime | detect_duplicates_optimized.py:64-65 | definition of `sort_values('timestamp')` as a stable insertion sort; properties in SortByTimeSorts |
| EventLog.SortByTimeSorts | detect_duplicates_optimized.py:64-65 | sorting by timestamp yields a timestamp-ordered permutation of the rows |
| EventLog.Trace | detect_duplicates_optimized.py:64-65 | definition of a key's trace, its rows sorted by time; properties in TraceFacts, TraceOccurrences and TraceStartsEarliest |
| EventLog.TraceFacts | detect_duplicates_optimized.py:64-65 | a key's trace holds exactly the rows of that key, in timestamp order |
| EventLog.TraceOccurrences | detect_duplicates_optimized.py:64-65 | a trace holds each row of the key as often as the table does and no other row, so it is as long as the key's selection |
| EventLog.TraceStartsEarliest | detect_duplicates_optimized.py:64-69 | a key with a row has a non-empty trace, and its first row is the key's earliest |
| EventLog.Activities | detect_duplicates_optimized.py:74-75 | the activity list has one entry per trace row, in trace order |
| StringOrder.LexLe | detect_duplicates_optimized.py:41 | definition of the code-point order Python uses on strings; properties in LexLeTotal, LexLeAntisymmetric and LexLeTransitive |
| StringOrder.LexLeTotal | detect_duplicates_optimized.py:41 | any two strings are ordered one way or the other |
| StringOrder.LexLeAntisymmetric | detect_duplicates_optimized.py:41 | strings ordered both ways are equal |
| StringOrder.LexLeTransitive | detect_duplicates_optimized.py:41 | the string order is transitive |
| StringOrder.SortedSeq | detect_duplicates_optimized.py:41 | definition of the sorted list; it is sorted and a permutation of its input; properties in SortedIsUnique, SortedSeqKeepsDistinct and SortInPlace |
| StringOrder.SortedIsUnique | detect_duplicates_optimized.py:41 | two sorted sequences with the same elements are the same sequence, so the sort result is determined |
| StringOrder.SortedSeqKeepsDistinct | detect_duplicates_optimized.py:41 | sorting distinct keys keeps them distinct |
| StringOrder.SortInPlace | detect_duplicates_optimized.py:41 | `list.sort()` in place: the array ends sorted and a permutation of its old contents |
| DuplicateDetection.AppList | detect_duplicates_optimized.py:19-20 | the list of application numbers contains exactly the keys of the table |
| DuplicateDetection.AppListCounts | detect_duplicates_optimized.py:19-20 | a key occurs in the application list once per distinct (application, user, activity, timestamp) row that carries it |
| DuplicateDetection.AppListRepeats | detect_duplicates_optimized.py:19-20 | two rows of one key that differ in user, activity or timestamp put the key in the list at least twice |
| DuplicateDetection.LengthOrder | detect_duplicates_optimized.py:25-30 | definition of the order of the length dictionary's keys; properties in LengthOrderLists |
| DuplicateDetection.Bucket | detect_duplicates_optimized.py:25-30 | definition of one length's list; properties in BucketMembers and BucketKeepsOccurrences |
| DuplicateDetection.LengthOrderLists | detect_duplicates_optimized.py:25-30 | the lengths in dictionary order are exactly the key lengths, each once |
| DuplicateDetection.BucketMembers | detect_duplicates_optimized.py:25-30 | a length group holds exactly the keys of that length |
| DuplicateDetection.BucketKeepsOccurrences | detect_duplicates_optimized.py:25-30 | a length group keeps every occurrence of its keys, repetitions included |
| DuplicateDetection.GroupByLength | detect_duplicates_optimized.py:25-30 | the dictionary built key by key has one entry per length seen, in first-seen order, each the list of keys of that length in order |
| DuplicateDetection.SortedBuckets | detect_duplicates_optimized.py:36-41 | definition of the sorted length groups in dictionary order; properties in BucketsHaveOneLength and GroupByLength |
| DuplicateDetection.BucketsHaveOneLength | detect_duplicates_optimized.py:36-41 | every key of a sorted group is a key of the table of the group's length |
| DuplicateDetection.PreFilterNeverTaken | detect_duplicates_optimized.py:56-57 | within a length group the length filter never skips a pair |
| DuplicateDetection.Features | detect_duplicates_optimized.py:64-89 | definition of the record built for a pair; properties in FeatureFacts |
| DuplicateDetection.ExtractFeatures | detect_duplicates_optimized.py:64-89 | features exist exactly when both traces are non-empty, and they carry the two keys and the similarity |
| DuplicateDetection.FeatureFacts | detect_duplicates_optimized.py:67-78 | hours apart are non-negative and measured from each key's earliest row; same-user is 1.0 exactly when the first users agree, else 0.0; activity similarity is 0 for a trace of more than 10 rows |
| DuplicateDetection.CompareKeys | detect_duplicates_optimized.py:55-89 | definition of one comparison; properties in CompareKeysReports |
| DuplicateDetection.CompareKeysReports | detect_duplicates_optimized.py:55-89 | a comparison reports at most one pair, and none exactly when the length filter, the threshold or an empty trace rejects it |
| DuplicateDetection.Window | detect_duplicates_optimized.py:51-89 | definition of the comparisons of key `i` with the next keys of its group; properties in WindowSize and WindowPairOrdered |
| DuplicateDetection.ScanBucket | detect_duplicates_optimized.py:43-92 | definition of the scan of one sorted group with its budget checks; properties in ScanBucketExtends, ScanBucketBound and SearchBucket |
| DuplicateDetection.ScanBuckets | detect_duplicates_optimized.py:36-95 | definition of the scan of all groups in order; properties in ScanBucketsStopped |
| DuplicateDetection.Budget | detect_duplicates_optimized.py:33 | definition of the effective budget; properties in SearchBudgetBound |
| DuplicateDetection.Search | detect_duplicates_optimized.py:24-95 | definition of the whole search; properties in SearchIsTruncation, SearchSound and SearchCompleteUnderBudget |
| DuplicateDetection.WindowSize | detect_duplicates_optimized.py:51 | a window has at most 49 comparisons |
| DuplicateDetection.SearchIsTruncation | detect_duplicates_optimized.py:32-95 | the pairs found are a prefix of the pairs of all windows of all groups; if the budget is not reached, they are all of them |
| DuplicateDetection.SearchCompleteUnderBudget | detect_duplicates_optimized.py:32-95 | with enough budget every qualifying pair of every window is reported and every comparison is counted |
| DuplicateDetection.SearchBudgetBound | detect_duplicates_optimized.py:32-33 | the counter overshoots the budget by at most 48, and a non-positive budget means no comparison |
| DuplicateDetection.ScanBucketsStopped | detect_duplicates_optimized.py:44-46 | once the budget is reached nothing more is compared or reported |
| DuplicateDetection.SmallBucketIsEmpty | detect_duplicates_optimized.py:36-38 | a group of fewer than two keys contributes no pair and no comparison |
| DuplicateDetection.SearchSound | detect_duplicates_optimized.py:43-89 | every reported pair comes from one window of one length group, the keys are table keys of equal length in sorted order, it reaches the threshold, and its features are those of its two traces |
| DuplicateDetection.WindowPairOrdered | detect_duplicates_optimized.py:41-52 | the two keys of a window pair have one length and the first sorts before the second |
| DuplicateDetection.ComparePair | detect_duplicates_optimized.py:55-89 | the body of the inner loop reports what the comparison of the two keys reports |
| DuplicateDetection.SearchWindow | detect_duplicates_optimized.py:51-89 | the inner loop adds one window's comparisons to the counter and its pairs to the results |
| DuplicateDetection.SearchBucket | detect_duplicates_optimized.py:43-92 | the loop over a sorted group is the group scan of the specification, budget checks included |
| DuplicateDetection.SortedCopy | detect_duplicates_optimized.py:41 | the group is sorted into a fresh array |
| DuplicateDetection.SearchCandidates | detect_duplicates_optimized.py:24-95 | the three nested loops compute the specified search, each pair has equal-length ordered keys reaching the threshold, and the counter stays within budget plus 48 |
| DuplicateDetection.DetectDuplicates | detect_duplicates_optimized.py:8-98 | the detector on the table's application list, with the same guarantees |
| DuplicateDetection.SelfPairReported | detect_duplicates_optimized.py:19-20 | a table with two events of one application reports that application paired with itself |
| DuplicateDetection.DetectDuplicatesUniqueKeys | detect_duplicates_optimized.py:19-95 | over the distinct application numbers, no reported pair has two equal keys |
| DuplicateDetection.UniqueKeysNoSelfPairs | detect_duplicates_optimized.py:19-95 | a search over distinct keys never pairs a key with itself |
| KeyVariations.DigitChar | create_mixed_duplicates.py:144 | the digit character of a value below 10 has that value |
| KeyVariations.ToLower | create_mixed_duplicates.py:153 | upper-case letters go to their lower-case forms, and other characters are kept |
| KeyVariations.ToUpper | create_mixed_duplicates.py:157 | lower-case letters go to their upper-case forms, and other characters are kept |
| KeyVariations.SimilarChar | create_mixed_duplicates.py:148-152 | definition of the look-alike letter table; properties in TypoVariation |
| KeyVariations.TypoVariation | create_mixed_duplicates.py:135-160 | a key shorter than 3 is kept; otherwise only the drawn position may change: a digit always becomes a different digit, its value shifted mod 10; a look-alike letter is swapped keeping its case; any other character leaves the key unchanged |
| KeyVariations.InsertAt | create_mixed_duplicates.py:173 | the character lands at the position with the rest of the key around it |
| KeyVariations.DeleteAt | create_mixed_duplicates.py:177 | the character at the position is removed and the rest is kept |
| KeyVariations.DeleteUndoesInsert | create_mixed_duplicates.py:169-177 | deleting the inserted character restores the key |
| KeyVariations.InsertDeleteVariation | create_mixed_duplicates.py:162-177 | a key shorter than 2 is kept; otherwise the key grows by one alphanumeric character exactly when the draw is an insert and the key is shorter than 10, and shrinks by one otherwise |
| KeyVariations.TranspositionVariation | create_mixed_duplicates.py:179-188 | the two adjacent characters change places, everything else is kept, and the characters are a permutation of the key |
| KeyVariations.TranspositionInvolution | create_mixed_duplicates.py:179-188 | transposing twice at the same position gives the key back |
| KeyVariations.Transpose | create_mixed_duplicates.py:185-188 | the swap on the character list equals the transposition |
| KeyVariations.ShowNatValue | create_mixed_duplicates.py:197 | the decimal numeral of a number reads back as that number |
| KeyVariations.ZeroPadFacts | create_mixed_duplicates.py:197 | zero padding gives a digit string of the number's value, as long as the width or the numeral, whichever is longer |
| KeyVariations.CanonicalNumeralLength | create_mixed_duplicates.py:195-197 | a numeral without leading zeros keeps its length through `int` and formatting |
| KeyVariations.Reformat | create_mixed_duplicates.py:190-222 | definition of the shape the three reformatting variations share; properties in ReformatNumeric and ReformatFallback |
| KeyVariations.ReformatNumeric | create_mixed_duplicates.py:193-197 | an all-digit key becomes the prefix followed by a zero-padded numeral of the same number, at least the width long |
| KeyVariations.ReformatFallback | create_mixed_duplicates.py:198-200 | any other key becomes the fallback prefix followed by exactly the fallback width of digits, whose value is the hash modulo 10 to that width |
| KeyVariations.SemanticVariation | create_mixed_duplicates.py:190-200 | definition; properties in SemanticVariationForm |
| KeyVariations.FormatVariation | create_mixed_duplicates.py:202-211 | definition; properties in FormatVariationForm |
| KeyVariations.SystemVariation | create_mixed_duplicates.py:213-222 | definition; properties in SystemVariationForm |
| KeyVariations.SemanticVariationForm | create_mixed_duplicates.py:190-200 | `APP` and the same number in at least six digits, or `REQ` and five digits of the hash |
| KeyVariations.FormatVariationForm | create_mixed_duplicates.py:202-211 | `SYS` and the same number in at least eight digits, or `REF` and four digits of the hash |
| KeyVariations.SystemVariationForm | create_mixed_duplicates.py:213-222 | `WEB` and the same number in at least seven digits, or `MOB` and three digits of the hash |
| KeyVariations.ReformatsChangeLength | create_mixed_duplicates.py:190-222 | for a numeric key without leading zeros every reformat is longer than the key |
| MixedDuplicates.Without | create_mixed_duplicates.py:63 | the filtered users are exactly the users other than the given one |
| MixedDuplicates.ChosenUser | create_mixed_duplicates.py:61-63 | definition of the choice of another user; properties in ChosenUserFacts |
| MixedDuplicates.ChosenUserFacts | create_mixed_duplicates.py:62-63 | a user can be chosen exactly when the trace is non-empty and the table has another user; that user belongs to the table and differs from the trace's first user |
| MixedDuplicates.NewKey | create_mixed_duplicates.py:41-131 | definition of the key of a copy, one of the six transformers by group and variation; properties in the KeyVariations lemmas |
| MixedDuplicates.CopyRows | create_mixed_duplicates.py:42-81 | definition of the rows of a copy; properties in CopyFacts and CopyProvenance |
| MixedDuplicates.Copy | create_mixed_duplicates.py:41-131 | definition of one pass of the variation loop; properties in CopyOutcome and CopyFacts |
| MixedDuplicates.CopyOutcome | create_mixed_duplicates.py:37-131 | a copy fails exactly when it must change the user and no other user exists; otherwise it has one row per original row |
| MixedDuplicates.CopyFacts | create_mixed_duplicates.py:42-81 | every copied row has the new key, the original's activity and amount, the original's user or the chosen one, the type labels and the original key, and its time shifted by the drawn offset within its range, keeping the trace's gaps |
| MixedDuplicates.ThenAllSucceeds | create_mixed_duplicates.py:37-131 | the appended copies succeed exactly when every copy does |
| MixedDuplicates.ThenAllFailurePersists | create_mixed_duplicates.py:37-131 | the first error stops the generation |
| MixedDuplicates.ThenAllRows | create_mixed_duplicates.py:133 | the concatenation has the total row count and only rows of the copies |
| MixedDuplicates.SliceIndex | create_mixed_duplicates.py:36 | a slice end is clamped to the list |
| MixedDuplicates.Sample | create_mixed_duplicates.py:30-31 | definition of the sampled keys; properties in SampleFacts |
| MixedDuplicates.SampleFacts | create_mixed_duplicates.py:30-31 | the sample holds as many distinct table keys as the smaller of the request and the number of applications |
| MixedDuplicates.AppendCopies | create_mixed_duplicates.py:41-81 | the loop over the three variation types appends the three copies of one key, or stops at the first error |
| MixedDuplicates.AppendGroup | create_mixed_duplicates.py:37-131 | the loop over one group's keys appends the copies of each key |
| MixedDuplicates.CreateMixedDuplicates | create_mixed_duplicates.py:9-133 | the generator computes the specified fuzzy copies of the first keys, then the non-fuzzy copies of the rest, with the errors of sampling, user choice and concatenation |
| MixedDuplicates.CopyProvenance | create_mixed_duplicates.py:42-81 | every row of a copy is a transformed row of the original trace |
| MixedDuplicates.KeyCopiesSucceed | create_mixed_duplicates.py:41-81 | a key's three copies succeed exactly when the table has a user other than the key's first user |
| MixedDuplicates.KeyCopiesCount | create_mixed_duplicates.py:41-81 | a key yields three times its trace length in rows |
| MixedDuplicates.KeyCopiesRows | create_mixed_duplicates.py:41-81 | every row produced for a key is a copy of that key's trace |
| MixedDuplicates.GroupSucceeds | create_mixed_duplicates.py:37-131 | a group succeeds exactly when each of its keys has another user available |
| MixedDuplicates.GroupCount | create_mixed_duplicates.py:37-131 | a group yields three times the total trace length of its keys |
| MixedDuplicates.GroupRows | create_mixed_duplicates.py:37-131 | every row of a group is a copy of one of its keys |
| MixedDuplicates.PickKeyCopy | create_mixed_duplicates.py:41-131 | among a key's three copies, the rows with the label of variation `v` are exactly copy `v`, in order |
| MixedDuplicates.PickOtherKey | create_mixed_duplicates.py:41-131 | no row made for a key names another key as its original |
| MixedDuplicates.PickOtherTag | create_mixed_duplicates.py:41-131 | a key's copies carry only the variation labels of its own group, so any other label selects none of them |
| MixedDuplicates.MixedDuplicates | create_mixed_duplicates.py:9-133 | definition of the generator's result; properties in MixedDuplicatesSucceed, MixedDuplicatesCount, MixedDuplicatesRows and MixedDuplicatesCopies |
| MixedDuplicates.MixedDuplicatesSucceed | create_mixed_duplicates.py:9-133 | generation succeeds exactly when at least one duplicate is requested, the table is non-empty and every sampled key has another user available |
| MixedDuplicates.MixedDuplicatesCount | create_mixed_duplicates.py:9-133 | the result has three rows per row of each sampled trace |
| MixedDuplicates.MixedDuplicatesRows | create_mixed_duplicates.py:26-131 | every generated row copies a sampled key, fuzzy-detectable exactly for the keys before the split point |
| MixedDuplicates.MixedDuplicatesCopies | create_mixed_duplicates.py:26-133 | for each sampled key and each variation, the generated rows that copy that key under that variation label are exactly that one copy, in order, with one row per row of the key's trace |
| MixedDuplicates.MixedDuplicatesOtherTags | create_mixed_duplicates.py:26-133 | no generated row copies a sampled key under a label other than its group's three, so with MixedDuplicatesCopies the rows copying that key are exactly its three full copies |
| Detectability.PairKeys | create_mixed_duplicates.py:233-235 | definition of the keys named by the pairs; properties in PairKeysMembers |
| Detectability.Marked | create_mixed_duplicates.py:238-241 | definition of the marking of one row; properties in MarkedMeans |
| Detectability.PairKeysMembers | create_mixed_duplicates.py:233-241 | the detected keys are exactly those that appear as A or B of some pair |
| Detectability.DetectedAtMostCount | create_mixed_duplicates.py:244-261 | a class never has more detected rows than rows, and the two classes fit in the table |
| Detectability.RateFacts | create_mixed_duplicates.py:247-248 | a detection rate lies in [0,1] and is 1 exactly when a non-empty class was wholly detected |
| Detectability.Stats | create_mixed_duplicates.py:243-261 | definition of the returned statistics; properties in StatsFacts and RateFacts |
| Detectability.StatsFacts | create_mixed_duplicates.py:243-261 | totals fit in the table, detected counts are at most the totals, rates are fractions, 0 for an empty class and 1 exactly for a fully detected class |
| Detectability.AnalyzeDuplicateDetectability | create_mixed_duplicates.py:224-261 | in place, every row is marked detected by fuzzy matching exactly when its key is in some pair, and the statistics are those of the marked table |
| Detectability.MarkedMeans | create_mixed_duplicates.py:228-241 | marking keeps the row, flags it detected exactly when some pair names its key, and records the method accordingly |
| RootCause.Rule | advanced_root_cause_analysis.py:19-40 | definition of the six rule conditions; properties in FirstRuleMeans and FirstMatchWins |
| RootCause.Classify | advanced_root_cause_analysis.py:12-43 | definition of the if/elif chain; properties in ClassifyIsFirstMatch, ClassifyInLabels and FirstMatchWins |
| RootCause.FirstRule | advanced_root_cause_analysis.py:19-43 | the index of the first rule that holds lies between the start and the fallback |
| RootCause.FirstRuleMeans | advanced_root_cause_analysis.py:19-43 | the first rule found holds and no rule before it does |
| RootCause.ClassifyIsFirstMatch | advanced_root_cause_analysis.py:19-43 | the if/elif chain returns the label of the first rule of the table that holds |
| RootCause.LabelsDistinct | advanced_root_cause_analysis.py:20-43 | the seven labels are pairwise different |
| RootCause.ClassifyInLabels | advanced_root_cause_analysis.py:19-43 | the result is one of the seven labels |
| RootCause.FirstMatchWins | advanced_root_cause_analysis.py:19-43 | a label is returned exactly when its rule holds (or it is the fallback) and no earlier rule holds |
| RootCause.ManualReentryRule | advanced_root_cause_analysis.py:19-20 | same user, within an hour and similarity of 85 or more always gives the re-entry label |
| RootCause.CollaborativeRule | advanced_root_cause_analysis.py:23-24 | different users, within two hours and similarity of 80 or more always gives the collaborative label |
| RootCause.TrainingTestingUnreachable | advanced_root_cause_analysis.py:39-40 | rule 6 implies rule 1 or rule 2, so the training label is never returned |
| RootCause.SystemRetryMeans | advanced_root_cause_analysis.py:27-28 | a retry label means a key starting with `R`, at least two hours apart, and rule 1 not holding |
| DuplicateImpact.Assess | analyze_duplicate_impact.py:20-32 | definition of the tier and recommendation of a label; properties in AssessTiers |
| DuplicateImpact.AssessTiers | analyze_duplicate_impact.py:20-32 | each label gets one of the four tier and recommendation pairs, each of the three lists maps to its tier, and every other label is Critical |
| DuplicateImpact.ManualReentryIsCritical | analyze_duplicate_impact.py:21 | the classifier's re-entry label is not the label in the Low list, so it is assessed Critical |
| DuplicateImpact.ClassifiedNeverLow | analyze_duplicate_impact.py:21-22 | no label the classifier returns is assessed Low |
| DuplicateImpact.AssessCorrectedMeans | analyze_duplicate_impact.py:20-32 | with the Low list naming the classifier's label, re-entries are Low, Low means re-entry, and all other labels are assessed as before |
| DuplicateImpact.Amount | analyze_duplicate_impact.py:17-18 | definition of the amount lookup; properties in AmountMeans |
| DuplicateImpact.AmountMeans | analyze_duplicate_impact.py:17-18 | the amount is 0 without the column; otherwise the lookup fails exactly when no row has the key, and succeeds with the first such row's amount |
| DuplicateImpact.FirstRowIsFirst | analyze_duplicate_impact.py:17-18 | the first selected row is the earliest row of the table with that key |
| DuplicateImpact.AnalyzeDuplicateImpact | analyze_duplicate_impact.py:6-44 | the loop fails exactly when some pair's amount lookup fails; otherwise one record per pair, with its keys, label and hours copied, the label's tier and recommendation, and the larger of the two amounts |
| CompleteAnalysis.CollectDetectedApps | run_complete_analysis.py:21-25 | the detected set is exactly the keys named A or B by some pair |
| CompleteAnalysis.OfType | run_complete_analysis.py:28-29 | definition of a class filter; properties in OfTypeSelects |
| CompleteAnalysis.WithStatus | run_complete_analysis.py:32-39 | definition of a status filter; properties in WithStatusSelects, WithStatusPartition and WithStatusSizes |
| CompleteAnalysis.OfTypeSelects | run_complete_analysis.py:28-29 | a class holds exactly the generated rows of that duplicate type |
| CompleteAnalysis.WithStatusSelects | run_complete_analysis.py:32-39 | a status group holds exactly the rows whose detection status is the wanted one |
| CompleteAnalysis.WithStatusPartition | run_complete_analysis.py:36-39 | the detected and not-detected groups together are the class, as a multiset |
| CompleteAnalysis.WithStatusSizes | run_complete_analysis.py:36-39 | the two group sizes add up to the class size |
| CompleteAnalysis.Organize | run_complete_analysis.py:15-62 | definition of the four groups and the summary; properties in GroupMembers, GroupsPartitionClasses and DetectedMeansInPairs |
| CompleteAnalysis.Summary | run_complete_analysis.py:42-53 | definition of the summary table; properties in SummaryTableFacts and SummaryFacts |
| CompleteAnalysis.OrganizeDuplicatesByType | run_complete_analysis.py:15-62 | the function computes the specified grouping from the keys of the pairs |
| CompleteAnalysis.GroupMembers | run_complete_analysis.py:28-39 | a row is in each of the four groups exactly when it is generated, of that type and of that detection status |
| CompleteAnalysis.GroupsPartitionClasses | run_complete_analysis.py:28-39 | each class splits into its two groups as a multiset, and the two groups share no row |
| CompleteAnalysis.DetectedMeansInPairs | run_complete_analysis.py:21-36 | a fuzzy-detectable row is in the detected group exactly when some pair names its key |
| CompleteAnalysis.PercentagePair | run_complete_analysis.py:46-51 | the two percentages of a class add up to 100, or are both 0 for an empty class, and each lies in [0,100] |
| CompleteAnalysis.ClassPercentages | run_complete_analysis.py:46-51 | the percentages of a split class are in [0,100], add up to 100 for a non-empty class and are 0 for an empty one |
| CompleteAnalysis.SummaryTableFacts | run_complete_analysis.py:42-51 | the summary has four rows whose counts are the group sizes and add up to the two class sizes, and whose percentages per class add up to 100 or are 0 |
| CompleteAnalysis.SummaryFacts | run_complete_analysis.py:42-53 | the summary is built from the four group sizes, and each class's two groups add up to its size |

## Left out

- Reading the XES event log with pm4py and building the data frame (`main.py`) is not modelled. The table is a sequence of rows with one key field standing for both `application_id` and `application_number`, since the pipeline sets one from the other and the generator rewrites both together.
- Printing, plotting, CSV export, the demo and test scripts, and the rest of `run_complete_analysis.py` from line 64 on have no effect on the computed results and are not modelled.
- `rapidfuzz.fuzz.ratio` is a parameter `ratio`, so nothing is proved about the similarity values themselves. The detector's activity similarity is `ratio` on the space-joined activity lists.
- Python's `hash` of a string is a parameter `hash`. It is randomised per process, and only the formatting of its remainder is modelled.
- `random.randint`, `random.choice` and `random.sample` are inputs restricted to their ranges. `random.choice` among the other users is modelled as index `pick` modulo their number.
- MixedDuplicates.CreateMixedDuplicates: takes `int(num_duplicates * fuzzy_detectable_ratio)` as the input `numFuzzy`, because float multiplication and truncation are not modelled.
- KeyVariations.IsDigit, KeyVariations.IsUpper, KeyVariations.IsLower: cover ASCII only. Python's `str.isdigit`, `isupper` and `lower` also accept other Unicode characters.
- `dropna()` on the user column is not modelled, because users are never missing in the model.
- pandas mechanics beyond their results are not modelled: index labels, column order, dtype conversions, `copy()`, `ignore_index`. `sort_values` is modelled as a stable insertion sort on timestamps; pandas' default quicksort may order rows with equal timestamps differently.
- Percentages, rates and hours are exact reals, not floating point. `timedelta.total_seconds() / 3600` is the difference in seconds divided by 3600.
- Requested amounts are integers.
- DuplicateDetection.ExtractFeatures: the trace records keep every field of a row, not just activity, user and timestamp.
- DuplicateDetection.SearchBudgetBound: states the budget as the code enforces it. The budget is checked only before a window, so the counter can pass `max_comparisons` by up to 48. A hard limit is not what the code does.
- CompleteAnalysis.OrganizeDuplicatesByType: the `was_detected` column added at lines 32-33 is represented by membership in the detected or not-detected group, not by a field of the rows.
- Detectability.AnalyzeDuplicateDetectability: the statistics are returned as natural numbers and exact rates, not NumPy scalars.

## Findings

| source | as written | input that shows it | evidently intended | confidence | as-written member | corrected member |
|---|---|---|---|---|---|---|
| detect_duplicates_optimized.py:19-20 | `app_list` takes one entry per distinct (application, user, activity, timestamp) row, so an application with several events appears several times and is compared with itself | a table with two different events of application `12345` and a similarity of 100 for equal strings: the only reported pair is (`12345`, `12345`) | compare each application number once, "unique applications" as the log message says | not executed | DuplicateDetection.SelfPairReported | DuplicateDetection.DetectDuplicatesUniqueKeys, DuplicateDetection.UniqueKeysNoSelfPairs |
| analyze_duplicate_impact.py:21 | the Low list names "Manual re-entry by same user", but the classifier returns "Manual re-entry by same user (likely typo/correction)", and the other Low label is unreachable | any pair with same user, within one hour and similarity of at least 85: it is classified as re-entry and assessed Critical | a same-user re-entry is assessed Low with the validation recommendation | not executed | DuplicateImpact.ClassifiedNeverLow | DuplicateImpact.AssessCorrected, DuplicateImpact.AssessCorrectedMeans |
