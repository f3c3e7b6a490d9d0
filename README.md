# image-searcher: the inverted file and the vocabulary-tree words, in Dafny

This project models the retrieval core of image-searcher, a bag-of-visual-words
image search engine.

**The inverted file (`ivFile`).** It maps every visual word to a posting
list. A posting is `(doc, count, val)`, and each list is kept in ascending
document order. The model covers:
- the two `fill` overloads, which insert postings at their `std::lower_bound`
  position;
- `computeStats`, which weights every posting, accumulates each document's
  `norml0`, `norml1`, `norml2` and word list, and then normalises every
  posting against its document's finished norms;
- the four scoring kernels `weightVal`, `normVal`, `dist` and `dist2Norm`;
- the single-query `search`: a sparse query histogram, the self-term seed,
  the three-term sparse update per (query word, posting) pair, the
  JAC/COS/HISTINT post-processing, the ascending sort and the truncation to
  `k`;
- the batch `search`, `clear`, and the save/load stream operators with
  `Params::check`.

**The vocabulary tree (`HIKMTree`).** The model covers:
- the composition of a descriptor's per-level cluster digits into one word
  id, a little-endian mixed-radix number in base K computed in `unsigned int`;
- `maxWord`;
- the recursive stream operators for the k-means filter, the tree node, the
  tree and the `HIKMTree` wrapper.

**How the model is built.**
- `ivFile` is the class `Index.InvertedFile`. Its vectors are `seq` fields
  that its methods reassign.
- The loops of `fill`, `computeStats`, `search` and the ivFile writer, and
  the digit loop of `push`, are methods with invariants. Each method is
  proved equal to a specification function, and the properties the source
  relies on are proved about those functions as lemmas.
- The ivFile reader, and both directions of the HIKMTree serialiser with
  their child loops, are recursive functions on the token sequence. They are
  tied together by round-trip lemmas.
- Floating-point values are `real`. `log2`, `sqrt`, the Hamming xor and the
  IEEE result of a division by zero are parameters (`Kernels.FloatOps`).
- A stream is a sequence of typed field tokens (`Base.Token`).
- The vlfeat structures are values, and a null reference is `None`.

Module map:
- `base.dfy`: tokens and results.
- `entries.dfy`: records, orderings, enumerations and `Params`.
- `postings.dfy`: sorted lists and `lower_bound`.
- `filling.dfy`, `fill_steps.dfy`: `fill`.
- `kernels.dfy`: the kernels.
- `stats.dfy`, `stats_steps.dfy`: `computeStats`.
- `search.dfy`, `search_steps.dfy`: `search`.
- `index_stream.dfy`: save and load.
- `inverted_file.dfy`: the `ivFile` object.
- `hikm_word.dfy`: word composition.
- `hikm_stream.dfy`: the tree serialiser.

## Model

| member | source | states |
|---|---|---|
| Entries.OrderingsIgnorePayload | kurs/ivfile/src/ccInvertedFile.hpp:52-55 | ivWordDoc's `<` ignores count and val; ivNode's `<` ignores val; the value comparators ignore id; descending is ascending with the arguments swapped |
| Entries.NormCode | kurs/ivfile/src/ccInvertedFile.hpp:200-207 | every Norm has a code below NORM_LAST = 4, and the code decodes back to it |
| Entries.NormOf | kurs/ivfile/src/ccInvertedFile.hpp:200-207 | a code names a Norm exactly when it is below NORM_LAST |
| Entries.DistCode | kurs/ivfile/src/ccInvertedFile.hpp:210-220 | every Dist has a code below DIST_LAST = 7, and the code decodes back to it |
| Entries.DistOf | kurs/ivfile/src/ccInvertedFile.hpp:210-220 | a code names a Dist exactly when it is below DIST_LAST |
| Entries.WeightCode | kurs/ivfile/src/ccInvertedFile.hpp:223-230 | every Weight has a code below WEIGHT_LAST = 4, and the code decodes back to it |
| Entries.WeightOf | kurs/ivfile/src/ccInvertedFile.hpp:223-230 | a code names a Weight exactly when it is below WEIGHT_LAST |
| Entries.CheckParams | kurs/ivfile/src/ccInvertedFile.cpp:807-813 | the pair is accepted iff norm < NORM_LAST and weight < WEIGHT_LAST; the norm is checked first and the error names the field that failed; an accepted pair keeps both codes |
| Entries.CheckAcceptsEveryParams | kurs/ivfile/src/ccInvertedFile.hpp:232-243 | every typed Params, the default (NORM_L1, WEIGHT_NONE) included, passes check() unchanged |
| Base.ReadBack | kurs/ivfile/src/ccInvertedFile.cpp:708-711 | a field written as a token of its kind reads back as the same value, and reading continues with what followed it (the int, float and bool readers of both stream formats alike) |
| Base.ReadWrongKind | kurs/ivfile/src/ccInvertedFile.cpp:708-711 | an ended stream, or a field of another kind, gives the reader its error instead of a value |
| PostingList.LowerBoundPos | kurs/ivfile/src/ccInvertedFile.cpp:48 | the lower bound lies within the list, and every record before it has a smaller key |
| PostingList.LowerBound | kurs/ivfile/src/ccInvertedFile.cpp:48 | the binary search of std::lower_bound returns the first index whose key is not below k: all keys before it are smaller, all from it on are not |
| PostingList.LowerBoundMiss | kurs/ivfile/src/ccInvertedFile.cpp:51 | on a sorted list, the test "at the end, or the key there is larger" holds exactly when the key is absent |
| PostingList.PresentIffKey | kurs/ivfile/src/ccInvertedFile.cpp:51 | on a sorted list, the key is found at its lower bound iff it is among the list's keys |
| PostingList.InsertAbsent | kurs/ivfile/src/ccInvertedFile.cpp:51-53 | after the conditional insertion, the lower-bound position is a valid index |
| PostingList.InsertAbsentSorted | kurs/ivfile/src/ccInvertedFile.cpp:48-55 | inserting only when absent keeps the list strictly ascending and unique, with key k at the lower-bound position |
| PostingList.InsertAbsentKeys | kurs/ivfile/src/ccInvertedFile.cpp:48-55 | the keys after the insertion are the keys before plus k |
| PostingList.UpdateSameKey | kurs/ivfile/src/ccInvertedFile.cpp:58 | updating a record's payload keeps order and key set |
| PostingList.BumpIsInsert | kurs/ivfile/src/ccInvertedFile.cpp:48-58 | the lower_bound insertion plus count increment equals the ordered-walk reference Bump |
| PostingList.Bump | kurs/ivfile/src/ccInvertedFile.cpp:48-58 | the reference definition of one occurrence in a posting list; its meaning is stated by BumpIsInsert, BumpSorted, BumpSize, BumpSum and BumpKeepsOthers |
| PostingList.BumpSorted | kurs/ivfile/src/ccInvertedFile.cpp:48-58 | one occurrence keeps a posting list strictly ascending by doc, and adds d to its documents |
| PostingList.BumpSize | kurs/ivfile/src/ccInvertedFile.cpp:51-55 | the list grows by one posting exactly when the document was absent, which is when ndocs is incremented |
| PostingList.BumpSum | kurs/ivfile/src/ccInvertedFile.cpp:41-58 | one occurrence adds exactly 1 to the summed counts, matching the `wf++` |
| PostingList.BumpKeepsOthers | kurs/ivfile/src/ccInvertedFile.cpp:48-58 | postings of other documents are neither lost nor created |
| PostingList.TallyIsInsert | kurs/ivfile/src/ccInvertedFile.cpp:389-393 | the query histogram's lower_bound insertion plus increment equals the ordered-walk reference Tally |
| PostingList.Tally | kurs/ivfile/src/ccInvertedFile.cpp:387-393 | the reference definition of one counted query token; its meaning is stated by TallyIsInsert, TallySorted and TallySum |
| PostingList.TallySorted | kurs/ivfile/src/ccInvertedFile.cpp:389-390 | the histogram stays strictly ascending and unique by id, with the word added to its ids |
| PostingList.TallySum | kurs/ivfile/src/ccInvertedFile.cpp:393 | each counted token adds exactly 1 to the histogram's total |
| Filling.Resize | kurs/ivfile/src/ccInvertedFile.cpp:21-22 | vector::resize keeps the first n elements and pads with default records |
| Filling.AddToWord | kurs/ivfile/src/ccInvertedFile.cpp:41-58 | one occurrence of a word in a document; its meaning is stated by FillSteps.AddToWordIsInsert, Filling.AddToWordOk and Filling.AddToWordInRange |
| Filling.FilledWords | kurs/ivfile/src/ccInvertedFile.cpp:25-62 | the words after the token loop keep their number; their content is stated by FilledKeepsWords, FilledWordFrequencies and RejectedTokenChangesNothing |
| Filling.FilledDocs | kurs/ivfile/src/ccInvertedFile.cpp:25-62 | the documents after the token loop keep their number; their token counts are stated by FilledDocTokens and RejectedTokenChangesNothing |
| Filling.AddDocTokens | kurs/ivfile/src/ccInvertedFile.cpp:96-130 | one input document's tokens keep the number of words; their effect is stated by AddDocTokensKeepsWords and FillSteps.AddDocTokensStep |
| Filling.VecWords | kurs/ivfile/src/ccInvertedFile.cpp:84-131 | the document loop keeps the number of words; its content is stated by VecWordsKeepsWords and ShiftedFillKeepsWords |
| Filling.VecDocs | kurs/ivfile/src/ccInvertedFile.cpp:84-93 | the document loop keeps the number of documents; their token counts are stated by VecDocsCounts |
| Filling.AddToWordOk | kurs/ivfile/src/ccInvertedFile.cpp:41-58 | one occurrence keeps a word well kept (sorted unique postings, ndocs their number, wf their summed counts) and adds d to its documents |
| Filling.AddToWordInRange | kurs/ivfile/src/ccInvertedFile.cpp:38-58 | recording an occurrence in an allocated document keeps every word well kept and every posting within the document range |
| Filling.FilledKeepsWords | kurs/ivfile/src/ccInvertedFile.cpp:25-62 | the array `fill` keeps every posting list strictly ascending and unique, ndocs equal to its length, wf equal to its summed counts, and every doc in range |
| Filling.FilledWordFrequencies | kurs/ivfile/src/ccInvertedFile.cpp:28-41 | every word's wf grows by exactly the number of accepted tokens carrying its label |
| Filling.FilledDocTokens | kurs/ivfile/src/ccInvertedFile.cpp:28-61 | every document's ntokens grows by exactly the number of accepted tokens carrying its label |
| Filling.RejectedTokenChangesNothing | kurs/ivfile/src/ccInvertedFile.cpp:28-32 | a token with a word label 0 or above nwords, or a doc label 0 or above ndocs, leaves words and documents unchanged |
| Filling.AddDocTokensKeepsWords | kurs/ivfile/src/ccInvertedFile.cpp:96-130 | one document's tokens, with labels 0 or above nwords skipped, keep every word well kept and in range |
| Filling.VecWordsKeepsWords | kurs/ivfile/src/ccInvertedFile.cpp:84-131 | the document-vector `fill` keeps the same word invariants as the array form |
| Filling.VecDocsCounts | kurs/ivfile/src/ccInvertedFile.cpp:93 | document d + idshift gains the full size of input d, skipped tokens included; no other document changes |
| Filling.ResizeKeepsWords | kurs/ivfile/src/ccInvertedFile.cpp:80 | resizing the word vector keeps every word well kept, the padding being empty words |
| Filling.InRangeGrows | kurs/ivfile/src/ccInvertedFile.cpp:81 | postings within a document range stay within any larger one |
| Filling.ShiftedFillEscapesRange | kurs/ivfile/src/ccInvertedFile.cpp:80-93 | with one input document and idshift 1, the document written lies past the vector, and the posting names a document outside the index |
| Filling.ShiftedFillKeepsWords | kurs/ivfile/src/ccInvertedFile.cpp:73-136 | sizing the documents to idshift + input keeps every word well kept and in range, and gives every document its old count plus its input's size |
| FillSteps.ResizeSorted | kurs/ivfile/src/ccInvertedFile.cpp:21 | after resizing, every posting list lower_bound may search is sorted |
| FillSteps.AddToWordIsInsert | kurs/ivfile/src/ccInvertedFile.cpp:41-58 | one occurrence is the lower_bound insertion of a zero-count posting when absent (ndocs + 1), then count + 1 and wf + 1, and keeps the list sorted |
| FillSteps.AddPosting | kurs/ivfile/src/ccInvertedFile.cpp:41-58 | the insertion-and-increment step computes one occurrence and keeps the list sorted |
| FillSteps.AddTo | kurs/ivfile/src/ccInvertedFile.cpp:38-58 | updating word wl in place records one occurrence and keeps every list sorted |
| FillSteps.FilledWordsStep | kurs/ivfile/src/ccInvertedFile.cpp:25-32 | one more token either is skipped or records one occurrence |
| FillSteps.FilledDocsStep | kurs/ivfile/src/ccInvertedFile.cpp:25-61 | one more token either is skipped or counts one token for its document |
| FillSteps.FillTokens | kurs/ivfile/src/ccInvertedFile.cpp:25-62 | the token loop computes FilledWords and FilledDocs and keeps every list sorted |
| FillSteps.AddDocTokensStep | kurs/ivfile/src/ccInvertedFile.cpp:96-103 | one more token either is skipped or records one occurrence |
| FillSteps.AddDocument | kurs/ivfile/src/ccInvertedFile.cpp:96-130 | the inner token loop computes AddDocTokens and keeps every list sorted |
| FillSteps.VecWordsStep | kurs/ivfile/src/ccInvertedFile.cpp:84-90 | one more document adds its tokens under id d + idshift |
| FillSteps.VecDocsStep | kurs/ivfile/src/ccInvertedFile.cpp:93 | one more document adds its size to document d + idshift |
| FillSteps.FillData | kurs/ivfile/src/ccInvertedFile.cpp:84-131 | the document loop computes VecWords and VecDocs and keeps every list sorted |
| Index.InvertedFile.constructor | kurs/ivfile/src/ccInvertedFile.hpp:252-258 | a new index has nwords = ndocs = 0, empty vectors, the given parameters, and is consistent |
| Index.InvertedFile.Fill | kurs/ivfile/src/ccInvertedFile.cpp:17-67 | the vectors are resized to (nwords, ndocs) and filled token by token; the counts are set; the parameters stay; a consistent index stays consistent |
| Index.InvertedFile.FillVectors | kurs/ivfile/src/ccInvertedFile.cpp:73-136 | words and documents become VecWords and VecDocs of the resized vectors, ndocs becomes the input size, and a consistent index stays consistent |
| Index.InvertedFile.FillVectorsShifted | kurs/ivfile/src/ccInvertedFile.cpp:73-136 | the shifted fill as intended: documents and ndocs grow to idshift + input, the earlier documents are kept, and the index stays consistent |
| Index.InvertedFile.ComputeStats | kurs/ivfile/src/ccInvertedFile.cpp:140-199 | words and documents become StatsWords and StatsDocs; counts and parameters stay; a consistent index stays consistent |
| Index.InvertedFile.SearchOne | kurs/ivfile/src/ccInvertedFile.cpp:364-514 | the result is the caller's list when there are no words, otherwise a ranking of the query's scores |
| Index.InvertedFile.Search | kurs/ivfile/src/ccInvertedFile.cpp:517-571 | one list per query, each a ranking of that query's scores from the same starting list, with the index's weight and norm |
| Index.InvertedFile.Clear | kurs/ivfile/src/ccInvertedFile.cpp:574-581 | both vectors become empty, and the counts and parameters are unchanged |
| Index.InvertedFile.Save | kurs/ivfile/src/ccInvertedFile.cpp:632-664 | the stream written is EncodeIndex of the object's state |
| Index.InvertedFile.Load | kurs/ivfile/src/ccInvertedFile.cpp:666-704 | on success the state is the decoded snapshot, earlier document statistics kept; on a malformed stream or rejected parameters the error is reported |
| Kernels.Div | kurs/ivfile/src/ccInvertedFile.cpp:233 | division by a nonzero divisor is exact |
| Kernels.WeightVal | kurs/ivfile/src/ccInvertedFile.cpp:225-243 | NONE keeps the value; BIN gives 1 iff the value is positive, else 0; TF divides by ntokens, or by 1 when ntokens is 0; TFIDF does the same and multiplies by log2(ndocs / (word.ndocs + EPS)) |
| Kernels.WeightValReadsTokensOnly | kurs/ivfile/src/ccInvertedFile.cpp:225-243 | the weight of a value depends on the document only through its ntokens |
| Kernels.NormDenom | kurs/ivfile/src/ccInvertedFile.cpp:246-263 | the L0 and L1 divisors, EPS plus a nonnegative norm, are positive |
| Kernels.NormVal | kurs/ivfile/src/ccInvertedFile.cpp:246-263 | NORM_NONE keeps the value; any other norm divides it exactly by that norm's divisor, when the divisor is nonzero |
| Kernels.DistVal | kurs/ivfile/src/ccInvertedFile.cpp:266-302 | L1 is the absolute difference and L2 is nonnegative; KL returns its first argument; JAC is 1 iff both are nonzero, else 0; HISTINT is the minimum |
| Kernels.Dist2Norm | kurs/ivfile/src/ccInvertedFile.cpp:305-361 | 0 for COS, JAC and HISTINT under any norm; with NORM_NONE norml1, norml2, norml0, 0 for L1, L2, HAM, KL; with a norm 1 for those four |
| Kernels.SparseExactKernel | kurs/ivfile/src/ccInvertedFile.cpp:472-473 | for L1, L2, COS, JAC and HISTINT the kernel is symmetric against 0 and vanishes on two zeros |
| Kernels.KLIsNotSparseExact | kurs/ivfile/src/ccInvertedFile.cpp:276-277 | KL's kernel is not symmetric against 0 |
| Kernels.SparseUpdateIsDense | kurs/ivfile/src/ccInvertedFile.cpp:472-473 | both self-terms plus the three-term corrections over the touched dimensions equal the dense distance, when every untouched dimension is zero on one side |
| Stats.CreditPostingsColumn | kurs/ivfile/src/ccInvertedFile.cpp:169-185 | one word's sorted postings credit each document they name exactly once, with its value, and leave the others alone |
| Stats.CreditWordsColumn | kurs/ivfile/src/ccInvertedFile.cpp:159-186 | every document ends credited with the words naming it, in word order, with their values |
| Stats.CreditRowFromReset | kurs/ivfile/src/ccInvertedFile.cpp:178-184 | crediting a reset document gives norml0 = nwords = row length, norml1 the sum, norml2 the sum of squares, words the ids, ntokens unchanged |
| Stats.Weighted | kurs/ivfile/src/ccInvertedFile.cpp:159-176 | the weighting pass keeps the number of words; its content is stated by WeightedKeepsPostings and StatsSteps.WeightedReadsTokensOnly |
| Stats.StatsDocs | kurs/ivfile/src/ccInvertedFile.cpp:149-186 | computeStats keeps the number of documents; each document is stated by StatsDocIsColumn, and their totals by Norml0TotalIsNdocsTotal |
| Stats.StatsWords | kurs/ivfile/src/ccInvertedFile.cpp:140-199 | computeStats keeps the number of words; their postings are stated by StatsKeepsPostings, StatsKeepsWords and RowValsNormed |
| Stats.StatsDocIsColumn | kurs/ivfile/src/ccInvertedFile.cpp:149-186 | after computeStats a document's words are exactly the words naming it, and nwords and norml0 their number; norml1 and norml2 sum their weighted values and squares |
| Stats.NamingMembers | kurs/ivfile/src/ccInvertedFile.cpp:183 | a word is in a document's list iff its postings name the document, and the list is strictly ascending |
| Stats.WeightedKeepsPostings | kurs/ivfile/src/ccInvertedFile.cpp:175 | weighting keeps every posting's document, hence order and range |
| Stats.StatsKeepsPostings | kurs/ivfile/src/ccInvertedFile.cpp:165-198 | computeStats changes only values and ndocs: docs, counts and wf stay, and ndocs becomes the number of postings |
| Stats.StatsKeepsPosting | kurs/ivfile/src/ccInvertedFile.cpp:165-198 | the same, for one word |
| Stats.StatsKeepsWords | kurs/ivfile/src/ccInvertedFile.cpp:140-199 | a well-kept, in-range index stays so through computeStats |
| Stats.StatsNdocsCountPostings | kurs/ivfile/src/ccInvertedFile.cpp:165 | after computeStats each word's ndocs is its number of postings |
| Stats.ValAtNormed | kurs/ivfile/src/ccInvertedFile.cpp:198 | a normalised posting holds normVal of its weighted value against its own document |
| Stats.KeysNormed | kurs/ivfile/src/ccInvertedFile.cpp:195-198 | normalisation keeps the documents a word names |
| Stats.NormedWordAt | kurs/ivfile/src/ccInvertedFile.cpp:195-198 | a normalised word names the same documents, with each value normalised |
| Stats.RowValsNormed | kurs/ivfile/src/ccInvertedFile.cpp:189-199 | a document's row after normalisation is its row before, each value normalised against it |
| Stats.NormRowScales | kurs/ivfile/src/ccInvertedFile.cpp:198 | each normalised value times the divisor gives back the value |
| Stats.SumNormRow | kurs/ivfile/src/ccInvertedFile.cpp:198 | a normalised row, scaled back by the divisor, sums to the row's sum |
| Stats.NormalisedRowSum | kurs/ivfile/src/ccInvertedFile.cpp:179-198 | after computeStats with a norm, a document's normalised values times EPS plus the norm sum to its norml1 (about 1 under L1) |
| Stats.SortedKeysCount | kurs/ivfile/src/ccInvertedFile.cpp:48-55 | a sorted unique posting list has as many documents as postings |
| Stats.NamingTotalIsPostingTotal | kurs/ivfile/src/ccInvertedFile.cpp:169-184 | the documents' word lists together are as long as all posting lists together |
| Stats.SumL0IsNamingTotal | kurs/ivfile/src/ccInvertedFile.cpp:178 | the documents' norml0 add up to the total length of their word lists |
| Stats.Norml0TotalIsNdocsTotal | kurs/ivfile/src/ccInvertedFile.cpp:165-178 | after computeStats the sum of norml0 over documents equals the sum of ndocs over words |
| StatsSteps.ResetDocs | kurs/ivfile/src/ccInvertedFile.cpp:149-156 | the reset loop computes ResetAll |
| StatsSteps.WeightedReadsTokensOnly | kurs/ivfile/src/ccInvertedFile.cpp:175 | weighting reads only the documents' ntokens, so running it as the norms accumulate gives the same values |
| StatsSteps.WeighWord | kurs/ivfile/src/ccInvertedFile.cpp:165-185 | one word's loop weights its postings and credits each document, keeping ntokens |
| StatsSteps.WeighWords | kurs/ivfile/src/ccInvertedFile.cpp:159-186 | the weighting pass computes Weighted and credits every document with it |
| StatsSteps.NormWords | kurs/ivfile/src/ccInvertedFile.cpp:189-199 | the normalisation pass computes NormedAll against the finished documents |
| Search.HistogramShape | kurs/ivfile/src/ccInvertedFile.cpp:381-394 | the query histogram is strictly ascending and unique by id, one node per word a valid token names |
| Search.Histogram | kurs/ivfile/src/ccInvertedFile.cpp:381-394 | the query histogram; stated by HistogramShape, HistogramTotal, HistogramIdsBelow and SearchSteps.CountWords |
| Search.HistogramTotal | kurs/ivfile/src/ccInvertedFile.cpp:381-394 | the histogram's counts add up to the number of valid tokens |
| Search.HistogramIdsBelow | kurs/ivfile/src/ccInvertedFile.cpp:385-388 | every histogram id names a word below nwords |
| Search.QueryWeights | kurs/ivfile/src/ccInvertedFile.cpp:381-407 | the weighted histogram names only words of the index |
| Search.WeighQuery | kurs/ivfile/src/ccInvertedFile.cpp:396-402 | weighting keeps one node per histogram node; the loop that computes it is SearchSteps.WeighCounts |
| Search.QueryDoc | kurs/ivfile/src/ccInvertedFile.cpp:396-407 | the query document; SearchSteps.QueryDocSnoc states that each weighted word adds 1, its value and its square to the norms |
| Search.Halve | kurs/ivfile/src/ccInvertedFile.cpp:420-426 | the self-term fold keeps one slot per entry; BaselineSeedsEverySlot states what it leaves in every batch slot |
| Search.Touch | kurs/ivfile/src/ccInvertedFile.cpp:445-473 | a touch never removes a slot; its effect is stated by TouchSorted, TouchNewSlot, UpdateIsCorrection, DirectFindsLowerBound and SearchSteps.TouchAt |
| Search.TouchWord | kurs/ivfile/src/ccInvertedFile.cpp:440-474 | one word's postings never remove a slot; stated by TouchWordSorted and TouchWordSlotsIn |
| Search.TouchAll | kurs/ivfile/src/ccInvertedFile.cpp:429-475 | the scoring loops never remove a slot; stated by TouchAllSorted, TouchAllSlotsIn and Kernels.SparseUpdateIsDense |
| Search.PostProcess | kurs/ivfile/src/ccInvertedFile.cpp:478-502 | post-processing keeps one score per slot, each value finished as Search.Finish states |
| Search.Scores | kurs/ivfile/src/ccInvertedFile.cpp:378-502 | the scores of one query; SearchSteps.ScoresStages states them as weighting, seeding, touches and post-processing, in that order |
| Search.Finish | kurs/ivfile/src/ccInvertedFile.cpp:478-502 | COS and HISTINT give 1 - v; JAC gives 1 - v / (norml0 + norml0' - v) exactly when that union is nonzero; other kernels keep v |
| Search.TouchSlotsIn | kurs/ivfile/src/ccInvertedFile.cpp:453-466 | a touch keeps every slot naming an indexed document |
| Search.TouchWordSlotsIn | kurs/ivfile/src/ccInvertedFile.cpp:440-474 | the same for one word's postings |
| Search.TouchAllSlotsIn | kurs/ivfile/src/ccInvertedFile.cpp:429-475 | the same for the whole scoring, so the JAC step indexes only documents |
| Search.Dist2NormUniform | kurs/ivfile/src/ccInvertedFile.cpp:338-360 | with a norm, dist2Norm is the same for every document |
| Search.BaselineSeedsEverySlot | kurs/ivfile/src/ccInvertedFile.cpp:420-463 | after the halving, or directly with a norm, every baseline slot holds the seed a new overlap slot starts from |
| Search.UpdateIsCorrection | kurs/ivfile/src/ccInvertedFile.cpp:472-473 | the in-place update adds exactly the three-term correction |
| Search.TouchSorted | kurs/ivfile/src/ccInvertedFile.cpp:447-473 | a touch keeps the list sorted and unique by id; the overlap path adds the document's id, the direct path adds none |
| Search.SameIdsSameOrder | kurs/ivfile/src/ccInvertedFile.cpp:472-473 | changing scores keeps order and ids |
| Search.TouchNewSlot | kurs/ivfile/src/ccInvertedFile.cpp:455-466 | a new document gets a slot at its lower bound, seeded with docNorm + dist2Norm(doc) and then updated; the rest of the list shifts by one |
| Search.TouchWordSorted | kurs/ivfile/src/ccInvertedFile.cpp:440-474 | one word's postings keep the list sorted by id |
| Search.TouchAllSorted | kurs/ivfile/src/ccInvertedFile.cpp:429-475 | the overlap-only score list stays strictly ascending and unique by id |
| Search.FullSortedIsIdentity | kurs/ivfile/src/ccInvertedFile.cpp:447-450 | a sorted list of ids below its length holds id i at position i |
| Search.IdsAtLeastIndex | kurs/ivfile/src/ccInvertedFile.cpp:447-450 | in a sorted unique list, the id at position i is at least i |
| Search.IdsAtMostIndex | kurs/ivfile/src/ccInvertedFile.cpp:447-450 | with all ids below the length, the id at position i is at most i |
| Search.DirectFindsLowerBound | kurs/ivfile/src/ccInvertedFile.cpp:447-460 | once the overlap list covers every document, direct indexing finds the slot lower_bound would |
| SearchSteps.TallyIn | kurs/ivfile/src/ccInvertedFile.cpp:387-393 | the lower_bound insertion and increment compute Tally |
| SearchSteps.HistogramPrefixStep | kurs/ivfile/src/ccInvertedFile.cpp:384-393 | one more token either is skipped or tallied |
| SearchSteps.CountWords | kurs/ivfile/src/ccInvertedFile.cpp:379-394 | the counting loop computes the histogram |
| SearchSteps.QueryDocSnoc | kurs/ivfile/src/ccInvertedFile.cpp:404-406 | one more weighted word adds 1, its value and its square to the query's norms |
| SearchSteps.WeighCounts | kurs/ivfile/src/ccInvertedFile.cpp:396-407 | the weighting loop computes the weighted histogram and the query document's norms |
| SearchSteps.HalveScores | kurs/ivfile/src/ccInvertedFile.cpp:420-426 | the loop makes each entry val / 2 + docNorm |
| SearchSteps.TouchSlot | kurs/ivfile/src/ccInvertedFile.cpp:445-473 | finding or inserting the slot and applying the update computes Touch |
| SearchSteps.TouchOverlap | kurs/ivfile/src/ccInvertedFile.cpp:453-473 | the overlap branch (lower_bound, insertion when absent, update) computes Touch |
| SearchSteps.TouchAt | kurs/ivfile/src/ccInvertedFile.cpp:457-473 | on the overlap path, a missing document is inserted at its lower bound with value docNorm + dist2Norm(doc), and then the slot at the lower bound is updated |
| SearchSteps.TouchPostings | kurs/ivfile/src/ccInvertedFile.cpp:440-474 | the posting loop computes TouchWord and keeps an overlap list sorted |
| SearchSteps.ScoreWords | kurs/ivfile/src/ccInvertedFile.cpp:429-475 | the word loop normalises each query value and computes TouchAll |
| SearchSteps.PostProcessScores | kurs/ivfile/src/ccInvertedFile.cpp:478-502 | the post-processing loops compute PostProcess |
| SearchSteps.KeepCount | kurs/ivfile/src/ccInvertedFile.cpp:509-510 | exactly k results when 0 < k < size, otherwise all of them |
| SearchSteps.InsertSorted | kurs/ivfile/src/ccInvertedFile.cpp:505-506 | one sorting step keeps ascending order and adds exactly x |
| SearchSteps.SortByVal | kurs/ivfile/src/ccInvertedFile.cpp:505-506 | the result is ascending by value and a permutation of the input |
| SearchSteps.InsertKeepsSorted | kurs/ivfile/src/ccInvertedFile.cpp:505-506 | inserting after every value not above x keeps ascending order |
| SearchSteps.SortedCut | kurs/ivfile/src/ccInvertedFile.cpp:509-510 | in an ascending list, everything before a cut is at most everything after it |
| SearchSteps.PrefixIsRanking | kurs/ivfile/src/ccInvertedFile.cpp:504-510 | the first KeepCount entries of a sorted permutation are the smallest scores, ascending, taken from the scores |
| SearchSteps.BuildBaseline | kurs/ivfile/src/ccInvertedFile.cpp:535-548 | the loop computes the baseline |
| SearchSteps.BatchSeedReady | kurs/ivfile/src/ccInvertedFile.cpp:534-548 | the batch's starting list (baseline, or empty with overlapOnly) is one a search accepts |
| SearchSteps.ScoresStages | kurs/ivfile/src/ccInvertedFile.cpp:396-502 | a query's scores are the weighting, the seeding, the touches and the post-processing, in that order |
| SearchSteps.ScoreQuery | kurs/ivfile/src/ccInvertedFile.cpp:378-502 | the single search up to the sort computes Scores |
| SearchSteps.Query | kurs/ivfile/src/ccInvertedFile.cpp:364-514 | the list is untouched when the index has no words; otherwise it is the k smallest scores, ascending |
| SearchSteps.QueryAll | kurs/ivfile/src/ccInvertedFile.cpp:551-570 | one answer per query, each searched from a fresh copy of the same list |
| SearchSteps.AllAnsweredAt | kurs/ivfile/src/ccInvertedFile.cpp:551-570 | every query answered so far has its answer at its own index |
| SearchSteps.QueryBatch | kurs/ivfile/src/ccInvertedFile.cpp:517-571 | one list per query document, each the answer of the single search from the batch seed |
| IndexStream.EncodeIndex | kurs/ivfile/src/ccInvertedFile.cpp:632-641 | the stream opens with the two parameter codes and then ndocs |
| IndexStream.EncodeDocsSnoc | kurs/ivfile/src/ccInvertedFile.cpp:617-622 | a document is written as its ntokens alone |
| IndexStream.EncodeHeadsSnoc | kurs/ivfile/src/ccInvertedFile.cpp:585-590 | a word header is written as ndocs then wf |
| IndexStream.EncodePostingsSnoc | kurs/ivfile/src/ccInvertedFile.cpp:600-606 | postings are written one after another |
| IndexStream.EncodeWordPostingsSnoc | kurs/ivfile/src/ccInvertedFile.cpp:656-662 | each word's postings follow the previous word's |
| IndexStream.DecodeWordPostings | kurs/ivfile/src/ccInvertedFile.cpp:693-702 | each word's list is sized by its stored ndocs, and its header fields stay |
| IndexStream.EncodeParams | kurs/ivfile/src/ccInvertedFile.cpp:726-733 | the parameter writer; DecodeParamsRoundTrip states it reads back |
| IndexStream.DecodeParams | kurs/ivfile/src/ccInvertedFile.cpp:706-724 | the parameter reader; DecodeParamsRoundTrip and LoadRejectsBadParams state its success and its failure |
| IndexStream.DecodeCounts | kurs/ivfile/src/ccInvertedFile.cpp:676-679 | reading k documents yields k counts; DecodeCountsRoundTrip states they are the saved ntokens |
| IndexStream.DecodeHeads | kurs/ivfile/src/ccInvertedFile.cpp:685-689 | reading k headers yields k words; DecodeHeadsRoundTrip states they are the saved ndocs and wf |
| IndexStream.DecodePosting | kurs/ivfile/src/ccInvertedFile.cpp:608-613 | the posting reader; DecodePostingRoundTrip states it reads back count, doc and val |
| IndexStream.DecodePostings | kurs/ivfile/src/ccInvertedFile.cpp:697-701 | reading k postings yields k postings; DecodePostingsRoundTrip states they are the saved ones |
| IndexStream.DecodeIndex | kurs/ivfile/src/ccInvertedFile.cpp:666-704 | the ivFile reader; LoadAfterSave, LoadAfterSaveRestores and LoadRejectsBadParams state what it returns |
| IndexStream.DecodeParamsRoundTrip | kurs/ivfile/src/ccInvertedFile.cpp:706-733 | reading written parameters gives them back and leaves the rest |
| IndexStream.DecodeCountsRoundTrip | kurs/ivfile/src/ccInvertedFile.cpp:617-628 | reading written documents gives back their ntokens |
| IndexStream.DecodeHeadsRoundTrip | kurs/ivfile/src/ccInvertedFile.cpp:585-596 | reading written headers gives back ndocs and wf |
| IndexStream.DecodeHeadsCons | kurs/ivfile/src/ccInvertedFile.cpp:688-689 | headers are read in order, each as (ndocs, wf) |
| IndexStream.DecodePostingRoundTrip | kurs/ivfile/src/ccInvertedFile.cpp:600-613 | reading a written posting gives back count, doc and val |
| IndexStream.DecodePostingsRoundTrip | kurs/ivfile/src/ccInvertedFile.cpp:659-661 | reading a written posting list gives it back |
| IndexStream.DecodePostingsCons | kurs/ivfile/src/ccInvertedFile.cpp:699-701 | postings are read in order |
| IndexStream.DecodeWordPostingsRoundTrip | kurs/ivfile/src/ccInvertedFile.cpp:656-702 | when every ndocs matches its list, reading the written lists gives every word back |
| IndexStream.DecodeWordPostingsCons | kurs/ivfile/src/ccInvertedFile.cpp:693-702 | words' postings are read in order, each sized by its ndocs |
| IndexStream.LoadAfterSave | kurs/ivfile/src/ccInvertedFile.cpp:632-704 | loading what was saved restores params, ndocs, nwords, every word with its postings, and every ntokens; a document's other fields are those it held before |
| IndexStream.EncodeIndexParts | kurs/ivfile/src/ccInvertedFile.cpp:636-662 | the saved stream is params, ndocs, the ntokens, nwords, the word headers, then every word's postings |
| IndexStream.DecodeIndexOf | kurs/ivfile/src/ccInvertedFile.cpp:670-704 | the reader reads params, ndocs, counts, nwords, headers and postings, in that order |
| IndexStream.LoadAfterSaveRestores | kurs/ivfile/src/ccInvertedFile.cpp:632-704 | saving and loading back into the same object restores it exactly |
| IndexStream.LoadRejectsBadParams | kurs/ivfile/src/ccInvertedFile.cpp:706-724 | a stream whose codes fail check() is rejected with check()'s error, whatever follows |
| IndexStream.Write | kurs/ivfile/src/ccInvertedFile.cpp:632-664 | the writer emits EncodeIndex |
| IndexStream.WriteCounts | kurs/ivfile/src/ccInvertedFile.cpp:643-644 | the document loop writes every ntokens |
| IndexStream.WriteHeads | kurs/ivfile/src/ccInvertedFile.cpp:651-652 | the word loop writes every header |
| IndexStream.WriteWordPostings | kurs/ivfile/src/ccInvertedFile.cpp:656-662 | the posting loops write every word's postings |
| IndexStream.WritePostings | kurs/ivfile/src/ccInvertedFile.cpp:659-661 | the inner loop writes one word's postings |
| HikmWord.ComposeSnoc | kurs/HIKMTree/HIKMTree.cpp:70-74 | the next digit adds digit * K^i, where i is its level |
| HikmWord.Compose | kurs/HIKMTree/HIKMTree.cpp:67-74 | the mixed-radix number of a path; stated by ComposeSnoc, ComposeBound, DecomposeCompose and ComposeInjective, and computed by Push |
| HikmWord.ComposeBound | kurs/HIKMTree/HIKMTree.cpp:67-74 | digits below K compose to less than K^n |
| HikmWord.DecomposeCompose | kurs/HIKMTree/HIKMTree.cpp:67-74 | decomposing a composed word gives its digits back |
| HikmWord.ComposeInjective | kurs/HIKMTree/HIKMTree.cpp:67-74 | two paths of the same depth name the same word only when they are the same path |
| HikmWord.Push | kurs/HIKMTree/HIKMTree.cpp:63-75 | the word is the sum of digit[i] * K^i, modulo 2^32 as unsigned arithmetic wraps |
| HikmWord.MaxWord | kurs/HIKMTree/HIKMTree.cpp:98-101 | maxWord fits an unsigned int |
| HikmWord.PushWithinMaxWord | kurs/HIKMTree/HIKMTree.cpp:54-101 | when K^depth fits, the composed word does not wrap, is at most maxWord, and maxWord is K^depth - 1 |
| HikmStream.IntsRoundTrip | kurs/HIKMTree/HIKMTree.cpp:143-168 | reading a written blob gives it back and leaves the rest |
| HikmStream.EncodeFilt | kurs/HIKMTree/HIKMTree.cpp:133-156 | the filter writer; FiltSavedIffSaveable and FiltRoundTrip state when it succeeds and that it reads back |
| HikmStream.DecodeFilt | kurs/HIKMTree/HIKMTree.cpp:158-182 | a filter read consumes at least one field; DecodeFiltElkan and DecodeFiltPlain state what it reads |
| HikmStream.EncodeNode | kurs/HIKMTree/HIKMTree.cpp:183-202 | the node writer; NodeSavedIffSaveable and NodeRoundTrip state when it succeeds and that it reads back |
| HikmStream.EncodeChildren | kurs/HIKMTree/HIKMTree.cpp:193-198 | the children writer; ChildrenSavedIffSaveable and ChildrenRoundTrip state it |
| HikmStream.DecodeNode | kurs/HIKMTree/HIKMTree.cpp:204-225 | a node read consumes at least one field; DecodeNodeLeaf and DecodeNodeInner state what it reads |
| HikmStream.DecodeChildren | kurs/HIKMTree/HIKMTree.cpp:214-218 | reading n children yields n children; ChildStep states they are read one after another |
| HikmStream.EncodeTree | kurs/HIKMTree/HIKMTree.cpp:227-239 | the tree writer; HikmSavedIffSaveable and HikmRoundTrip state it |
| HikmStream.DecodeTree | kurs/HIKMTree/HIKMTree.cpp:241-253 | the tree reader; DecodeTreeOf states its field order |
| HikmStream.EncodeHikm | kurs/HIKMTree/HIKMTree.cpp:255-262 | the HIKMTree writer; HikmSavedIffSaveable and HikmRoundTrip state when it succeeds and that it reads back |
| HikmStream.DecodeHikm | kurs/HIKMTree/HIKMTree.cpp:264-273 | the HIKMTree reader; DecodeHikmOf and HikmRoundTrip state what it returns |
| HikmStream.HeaderRead | kurs/HIKMTree/HIKMTree.cpp:160-164 | the filter reader finds M, K, method, max_niters and verb in the order they were written |
| HikmStream.DecodeFiltElkan | kurs/HIKMTree/HIKMTree.cpp:166-175 | for ELKAN the reader reads M*K centers, then K*K distances |
| HikmStream.DecodeFiltPlain | kurs/HIKMTree/HIKMTree.cpp:166-179 | otherwise it reads M*K centers and sets the distances to null |
| HikmStream.FiltRoundTrip | kurs/HIKMTree/HIKMTree.cpp:133-182 | reading a written filter gives it back, distances dropped unless ELKAN |
| HikmStream.FiltSavedIffSaveable | kurs/HIKMTree/HIKMTree.cpp:140-150 | a filter is written iff centers, and for ELKAN inter_dist, are present; otherwise the matching error is raised |
| HikmStream.DecodeNodeLeaf | kurs/HIKMTree/HIKMTree.cpp:209-223 | a cleared flag gives a node without children |
| HikmStream.DecodeNodeInner | kurs/HIKMTree/HIKMTree.cpp:209-219 | a set flag gives a node with K children read in order |
| HikmStream.NodeRoundTrip | kurs/HIKMTree/HIKMTree.cpp:183-225 | reading a written node gives back its canonical form, for the whole subtree |
| HikmStream.InnerRoundTrip | kurs/HIKMTree/HIKMTree.cpp:189-219 | the same for a node with children |
| HikmStream.ChildrenRoundTrip | kurs/HIKMTree/HIKMTree.cpp:193-218 | reading the written children from the i-th on gives them back in order |
| HikmStream.ChildOk | kurs/HIKMTree/HIKMTree.cpp:195-197 | every child of a writable node is present and writable |
| HikmStream.ChildStep | kurs/HIKMTree/HIKMTree.cpp:214-218 | children are read one after another |
| HikmStream.NodeSavedIffSaveable | kurs/HIKMTree/HIKMTree.cpp:185-197 | a node is written iff it has a writable filter and, with children, every child is present and writable |
| HikmStream.ChildrenSavedIffSaveable | kurs/HIKMTree/HIKMTree.cpp:193-198 | the children from the i-th on are written iff each is present and writable |
| HikmStream.DecodeTreeOf | kurs/HIKMTree/HIKMTree.cpp:241-253 | the tree reader reads its own header order, then the root |
| HikmStream.DecodeHikmOf | kurs/HIKMTree/HIKMTree.cpp:264-273 | the wrapper reader reads mLeaves, then a fresh tree |
| HikmStream.HikmRoundTrip | kurs/HIKMTree/HIKMTree.cpp:227-273 | loading a saved HIKMTree gives back mLeaves, the tree header and the canonical tree |
| HikmStream.HikmSavedIffSaveable | kurs/HIKMTree/HIKMTree.cpp:235-261 | saving succeeds iff nothing the writer dereferences is null; a null mTree or root raises its own error |

## Left out

- File and console plumbing is not modelled: opening and closing files in `save`/`load`, `display`, and the `cout`/`cerr` traces. A stream is a sequence of typed fields. The byte layout and the `sizeof` widths are not modelled, and `Util/util.hpp` (the READ/WRITE macros) is not part of this model.
- Floating point is modelled as `real` without rounding or `float` narrowing. `log2`, `sqrt`, the Hamming xor and the IEEE result of a division by zero are uninterpreted parameters (`Kernels.FloatOps`).
- Kernels.DistVal: says nothing about HAM beyond the xor parameter; Search.Finish says nothing about JAC when the union is zero, which is left to the division-by-zero parameter.
- Integer widths are unbounded, except in `HikmWord.Push`, which wraps modulo 2^32. The `size_t`/`uint` counters, and the `uint` sum `d + idshift`, do not wrap in the model.
- The vlfeat calls (`vl_hikm_new`, `vl_hikm_init`, `vl_hikm_train`, `vl_hikm_push`, `vl_malloc`), `HIKMTree::Init` with its depth computation, `train`, and `push(Image&)` are not modelled. The digit vector that `vl_hikm_push` produces is an input to `HikmWord.Push`.
- The value of VL_IKM_ELKAN is taken as 1, because vlfeat's header is not part of this model.
- HikmStream encoders: a writer that throws returns only the error, not the fields already written before the throw.
- HikmStream decoders: a stream that ends early, or holds a field of another kind, is an error (`Malformed`). The C++ readers set failbit and go on with unspecified values. Allocation failure is not modelled.
- Index.InvertedFile.Load: on an error the object is left unchanged, whereas the C++ reader leaves whatever it had read so far.
- Index.InvertedFile.Save: requires ndocs and nwords within the vectors. The writer reads past them otherwise, for example after `clear`, which keeps both counts.
- Index.InvertedFile.Fill: requires the posting lists it may search to be sorted, as `std::lower_bound` does.
- Index.InvertedFile.FillVectors: requires idshift = 0 or an empty input. With a shift, the source writes past the document vector (see Findings).
- Index.InvertedFile.ComputeStats: requires the counts to match the vectors and every posting to name a document, which the source indexes without checks.
- Index.InvertedFile.SearchOne: requires what the source indexes without checks:
  - without overlapOnly, a score list with one slot per document;
  - with overlapOnly, a score list sorted by id (std::lower_bound's precondition);
  - for JAC, slots that name documents;
  - query ids below nwords within the word vector.
- SearchSteps.SortByVal: `std::sort` is modelled as an insertion sort. Its contract is the one std::sort gives, an ascending permutation. The order among equal values is left open (`SearchSteps.IsRanking`), as std::sort is not stable.
- `PostingList.Bump` and `PostingList.Tally` are reference definitions: an ordered walk of the list. The lower_bound insertion the source performs is proved equal to them.
- HikmStream.EncodeFilt: writes the centers and inter_dist arrays at their own lengths, and HikmStream.EncodeChildren visits the children array at its own length. The source writes M*K centers and K*K distances and visits K children, counts taken from the filter's header. The model assumes each array's length equals its header's count; the round-trip lemmas require it (`FiltSized`, `NodeSized`), while NodeSavedIffSaveable and ChildrenSavedIffSaveable also cover nodes that break it.
- Load and save of `HIKMTree` are modelled on values. The allocation and the linked structure the readers build are not modelled.

## Findings

| source | as written | input that shows it | evidently intended | confidence | as-written member | corrected member |
|---|---|---|---|---|---|---|
| kurs/ivfile/src/ccInvertedFile.cpp:80-93 | the document-vector `fill` resizes `docs` to `data.size()` and sets `ndocs` to it, but credits input document d at `d + idshift` | one input document `[1]` with idshift 1: it writes `docs[1]` in a vector of size 1, and word 1 gets a posting for document 1 in an index of one document | `docs` and `ndocs` grow to `idshift + data.size()`, keeping the earlier documents, as the header's "useful for adding more data" says | not executed | Filling.ShiftedFillEscapesRange | Index.InvertedFile.FillVectorsShifted |
