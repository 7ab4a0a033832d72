# Hashtag recommender core, modelled in Dafny

This project models the feature-and-ranking core of `vector.py`, a small hashtag recommender. Its `Vectorizer` works in five steps:

- It turns a text into a feature list: word n-grams plus character subwords of the lower-cased, scrubbed tokens.
- It computes positional context arrays over that list.
- `fit` builds a sorted vocabulary, a BM25 IDF table and the average feature count.
- `transform` turns documents into rows of BM25 term frequencies, boosted by context and weighted by IDF.
- It L2-normalises every row.

`HashtagRecommender` builds such a vectorizer with its default settings and fits it on the training texts. For a query, `get_top_hashtags` does three things:

- It picks the min(5, #texts) training rows most similar to the query.
- It counts their `#`-normalised tags in first-seen order, with a fallback pass.
- It returns the n most frequent tags after a stable sort by count.

Modules, one per file:

- `Wrappers` (`wrappers.dfy`): `Option`, `Result` and the three `ValueError` raise sites as `Error`.
- `Features` (`features.dfy`):
  - tokenizing as pure functions: lower-case, scrub, `str.split()`;
  - `_get_ngrams`, `_get_subwords`, and the feature list that `_preprocess` returns;
  - Python set iteration modelled as `Enumerate`, which returns an order the model does not fix;
  - `Preprocess`, a method whose result is pinned down by `IsFeatureList`.
- `Context` (`context.dfy`): `_get_context_vectors` as nested loops over a map of rows, specified entry by entry with last-write-wins.
- `Bm25` (`bm25.dfy`), over exact reals:
  - the BM25 term frequency and the IDF argument;
  - mean, sum of squares, and row normalisation with the square root as a parameter.
- `Vocab` (`vocab.dfy`): Python's string order, and `{word: idx for idx, word in enumerate(sorted(S))}` as "index = rank".
- `Corpus` (`corpus.dfy`): the per-document feature sets and counts `fit` accumulates, the union, and document frequencies.
- `Vectorizing` (`vectorizer.dfy`): the `Vectorizer` class with `Fit` and `Transform` (the matrix is an `array2`), and the specification functions `Score` and `RawRow`.
- `Tags` (`tags.dfy`):
  - `#`-normalisation;
  - the insertion-ordered count dict as a sequence of pairs;
  - both counting passes;
  - the stable sort and the `[:n]` truncation;
  - the top-k selection.
- `Recommending` (`recommender.dfy`): the `HashtagRecommender` class with `Load` and `GetTopHashtags`.

The natural logarithm and the square root are function parameters (`ln`, `sqrt`). All floating-point arithmetic is modelled over `real`.

- **`fit([])`.** The code does not raise: it assigns `np.mean([])`, which is NaN.
  - `Vectorizer.Fit` accepts the empty list, leaves the vocabulary empty and stores 0.0 as the average.
  - The only error on that path is the one `transform` then raises.
  - The "no data" error is raised earlier, by `_load_and_process_csvs` (`Load`).

## Model

| member | source | states |
|---|---|---|
| Features.Clean | vector.py:66-67 | same length as the text; every character is a lower-case word character or whitespace; word characters of the text are exactly those kept, lower-cased |
| Features.Split | vector.py:68 | `str.split()` yields non-empty tokens without whitespace, made of characters of the input; that they are the maximal non-whitespace runs is `SplitAtSpace` with `SplitWord` |
| Features.SplitAtSpace | vector.py:68 | every whitespace character ends a token: splitting at it gives the tokens before it followed by the tokens after it |
| Features.SplitWord | vector.py:68 | a non-empty text without whitespace is a single token |
| Features.SplitKeepsNonSpace | vector.py:68 | concatenating the tokens of `split()` gives back every non-whitespace character of the input, in order |
| Features.SplitJoinSpaces | vector.py:68 | splitting a single-space join of non-empty, whitespace-free tokens returns those tokens |
| Features.Tokenize | vector.py:64-68 | the tokens of `_preprocess` are non-empty and consist of lower-case word characters, and together they are exactly the non-whitespace characters of the cleaned text, in order |
| Features.Ngrams | vector.py:48-54 | `_get_ngrams`: the grams of every size from lo to hi, smaller sizes first; there are max(0, len - n + 1) of each size n and nothing else (their positions and contents: `NgramIndex`, `NgramAt`) |
| Features.NgramIndex | vector.py:48-54 | the i-th gram of size n sits at index i after all grams of the smaller sizes |
| Features.NgramAt | vector.py:48-54 | the i-th gram of size n sits after all smaller sizes and is the `_`-join of `tokens[i:i+n]` |
| Features.NgramChars | vector.py:48-54 | n-grams of word-character tokens contain only word characters |
| Features.Subwords | vector.py:56-62 | `_get_subwords`: the union over start positions of the windows the two loops visit; what it holds is stated by `SubwordsSpec` |
| Features.SubwordsSpec | vector.py:56-62 | `_get_subwords` holds exactly the substrings starting inside the word whose length is between min_len and 9 |
| Features.ShortWordHasNoSubwords | vector.py:56-62 | a word shorter than min_len has no subwords |
| Features.SubwordChars | vector.py:56-62 | a subword consists of characters of its word |
| Features.Enumerate | vector.py:73-74 | iterating a set lists each member exactly once (multiset equality) |
| Features.Preprocess | vector.py:64-76 | the result is the n-grams followed by each token's subword set, in token order, in some order within each set |
| Features.FeatureListFacts | vector.py:64-76 | every possible feature list has the same multiset, length and set of features, whatever order the sets were iterated in |
| Features.FeatureSetMembers | vector.py:70-74 | a feature is an n-gram of the tokens or a subword of one token, and every such string is a feature |
| Features.FeaturesAreWordChars | vector.py:64-76 | no feature contains whitespace: every character is a word character |
| Context.LastWriter | vector.py:82-92 | the largest position below k that writes entry j of t's array, or none, and no later position writes it |
| Context.ContextRowEntry | vector.py:82-92 | entry j of t's array is 1/\|i-j\| for the last position i holding t within the window of j, and 0 if there is none |
| Context.HasWriterIff | vector.py:80-92 | t gets an array iff t occurs, the window is at least 1 and there are at least two tokens |
| Context.WriteWindow | vector.py:82-92 | one outer iteration leaves every array equal to its specification after one more position |
| Context.ContextVectors | vector.py:78-94 | the keys are exactly the strings with a writer, and each array equals its specified row, of length len(tokens) |
| Bm25.LengthNormPositive | vector.py:146 | `1 - b + b * doc_length / avg_doc_length` is positive for a positive length and 0 <= b <= 1 |
| Bm25.SaturateBounds | vector.py:146 | x(k1+1)/(x+K) lies in (0, k1+1], strictly below k1+1 when K > 0 |
| Bm25.SaturateIncreasing | vector.py:146 | x(k1+1)/(x+K) strictly increases in x for K > 0 |
| Bm25.TermFrequency | vector.py:146 | the BM25 tf of count >= 1 is positive and at most k1+1, strictly less when k1 > 0 |
| Bm25.TermFrequencyIncreasing | vector.py:146 | for a fixed document length, more occurrences give a strictly larger tf when k1 > 0 |
| Bm25.IdfArgument | vector.py:119-121 | (N-df+0.5)/(df+0.5)+1 is positive and exceeds 1 exactly when df <= N |
| Bm25.IdfArgumentForm | vector.py:119-121 | the IDF argument equals (N + 1) / (df + 0.5) |
| Bm25.IdfArgumentDecreasing | vector.py:119-121 | the IDF argument strictly decreases as the document frequency grows |
| Bm25.Mean | vector.py:150 | `np.mean`: the sum divided by the length; `MeanBounds` bounds it by the entries |
| Bm25.MeanBounds | vector.py:150 | the mean of entries in [lo, hi] lies in [lo, hi] |
| Bm25.NormDivisor | vector.py:156-157 | the divisor of a row is never 0 (a zero norm is replaced by 1) |
| Bm25.Normalize | vector.py:156-158 | the normalised row times the divisor gives back the row, so its zero entries are exactly the row's |
| Vocab.VocabularyOf | vector.py:110 | `{word: idx for idx, word in enumerate(sorted(all_words))}`: exactly the given features as keys, each at an index below their number (bijection and order: `VocabularyBijection`) |
| Vocab.LexLessTransitive | vector.py:110 | Python's string order is transitive |
| Vocab.LexLessTotal | vector.py:110 | any two distinct strings are ordered one way or the other |
| Vocab.RankOrder | vector.py:110 | one feature sorts before another iff its index is smaller |
| Vocab.VocabularyIsIndexing | vector.py:110 | the vocabulary has exactly the features as keys and gives distinct features distinct indices below \|V\| |
| Vocab.IndexingOnto | vector.py:110 | such an indexing uses every index below its size |
| Vocab.VocabularyBijection | vector.py:110 | the vocabulary is an order-preserving bijection from the features onto 0..\|V\|-1 |
| Vocab.FeatureAt | vector.py:110 | every index below \|V\| belongs to a feature |
| Corpus.UnionMembers | vector.py:103-108 | `all_words` holds exactly the features occurring in some document |
| Corpus.DocFreqCounts | vector.py:103-107 | the counter's value for a feature is the number of documents whose feature set contains it |
| Corpus.DocFreqBounds | vector.py:103-108 | every document frequency is at most N, and it is >= 1 exactly for the features of `all_words` |
| Corpus.IdfArgumentAboveOne | vector.py:116-121 | for every vocabulary feature the IDF argument exceeds 1 (so the real logarithm of it is positive) |
| Corpus.CorpusCountPositive | vector.py:104-111 | a corpus with a feature has a positive total feature count, so the average is positive |
| Vectorizing.CounterUpdate | vector.py:107 | `Counter.update` with a set: the keys grow by the set, each member gains exactly one, every other count stays (the loop invariant it keeps: `CountStep`) |
| Vectorizing.ContextWeightBounds | vector.py:88-92 | every context weight lies in [0, 1] |
| Vectorizing.ContextBoostBounds | vector.py:148-151 | the factor 1 + mean(context array) lies in [1, 2] |
| Vectorizing.DocumentFeatures | vector.py:104-106 | `set(tokens)` and `len(tokens)` are the feature set and feature count of the document |
| Vectorizing.CountStep | vector.py:103-108 | one document's iteration extends the union, the document frequencies and the length list by that document |
| Vectorizing.CountDocuments | vector.py:99-108 | the loop yields the union of the feature sets, the document frequency of every feature and the feature count of every document |
| Vectorizing.IdfTable | vector.py:113-121 | a table of \|V\| entries holding at each feature's index the log of its IDF argument |
| Vectorizing.Vectorizer.constructor | vector.py:32-46 | the settings are stored and the vectorizer starts unfitted |
| Vectorizing.Vectorizer.Fit | vector.py:96-121 | leaves the state `FittedOn` describes: the vocabulary is the sorted indexing of all features, the idf of every feature is log of its IDF argument from its document frequency, and the average is the mean feature count |
| Vectorizing.Vectorizer.Score | vector.py:143-153 | the value written for a feature: BM25 tf, times 1 + mean of its context array when it has one, times its idf (`WordScore` ties it to the loop, `ScoreZero` states when it is 0) |
| Vectorizing.Vectorizer.ScoreZero | vector.py:143-153 | the factor in front of the idf is positive, so a feature of the document scores 0 exactly when its idf is 0 |
| Vectorizing.Vectorizer.RawRow | vector.py:128-153 | the row `transform` writes for a document before normalisation, one entry per vocabulary index (entries: `RawRowEntry`, support: `RowSupport`) |
| Vectorizing.Vectorizer.RawRowEntry | vector.py:141-153 | the raw row holds the feature's score at its index when the document has the feature, and 0 otherwise |
| Vectorizing.Vectorizer.RowSupport | vector.py:128-158 | a row is non-zero only at indices of the document's own features; a document without vocabulary features gives an all-zero row |
| Vectorizing.Vectorizer.WordScore | vector.py:143-153 | the value written for a counted vocabulary word is its score: tf, boosted when it has a context array, times its idf |
| Vectorizing.Vectorizer.ScoreRow | vector.py:130-153 | row d becomes the raw row of the document's feature list and no other row changes |
| Vectorizing.Vectorizer.ScoreRows | vector.py:130-153 | every row of the zeroed matrix becomes the raw row of one feature list of its document |
| Vectorizing.Vectorizer.Transform | vector.py:123-160 | NotFitted iff the vocabulary is empty or there is no idf; otherwise one normalised raw row per document, of one of its feature lists |
| Tags.WithHash | vector.py:245 | the result starts with `#`; it is the tag itself iff the tag already did, and otherwise `#` followed by the tag |
| Tags.WithHashIdempotent | vector.py:245 | normalising twice is normalising once |
| Tags.SelectedTagsHashed | vector.py:242-246 | every tag the first pass counts starts with `#` |
| Tags.SelectedTagsEmpty | vector.py:242-246 | the first pass counts nothing iff every selected document has an empty tag list |
| Tags.FallbackAddsNothing | vector.py:248-254 | when the first pass counts nothing, the fallback pass visits no tag either |
| Tags.GetSpec | vector.py:246 | `get(tag, 0)` is the stored count of the tag, or 0 when absent |
| Tags.PutSpec | vector.py:246 | storing under an existing key updates that pair in place; under a new key it appends a pair |
| Tags.PutKeys | vector.py:246 | storing under a key keeps the key order, appending the key only when it is new |
| Tags.DedupSpec | vector.py:241-246 | the distinct tags hold every tag exactly once, ordered by first occurrence |
| Tags.TallySpec | vector.py:241-246 | the dict has one pair per distinct tag, in first-seen order, with the tag's number of occurrences |
| Tags.TallyKeys | vector.py:241-246 | the keys of the dict are the distinct tags in first-seen order |
| Tags.TallyCounts | vector.py:241-246 | each pair of the dict carries its tag's number of occurrences |
| Tags.Tally | vector.py:241-246 | the dict after counting the visited tags one by one from `{}`; it is empty iff no tag was counted (keys and counts: `TallySpec`) |
| Tags.SortByCount | vector.py:257-259 | `sorted(items, key=count, reverse=True)` as a stable insertion sort; it keeps the number of pairs (order, permutation and stability: the three lemmas below) |
| Tags.SortByCountDescending | vector.py:257-259 | the sorted pairs have non-increasing counts |
| Tags.SortByCountPermutes | vector.py:257-259 | sorting keeps the same pairs (multiset equality) |
| Tags.SortByCountStable | vector.py:257-259 | pairs with equal counts keep their relative order |
| Tags.SortByCountKeys | vector.py:257-260 | sorting keeps keys distinct |
| Tags.Ranked | vector.py:257-260 | `dict(sorted_hashtags[:n])`: exactly min(n, len(c)) pairs for n >= 0 and max(0, len(c) + n) for n < 0, so never more pairs than the dict (the rest: `RankedFacts`) |
| Tags.RankedFacts | vector.py:257-260 | `[:n]` of the sorted pairs gives exactly min(n, len(c)) distinct pairs of the dict (all of them once n >= len(c)), non-increasing, none left out counting more, and ties in dict order |
| Tags.RankedSpec | vector.py:241-260 | every returned tag occurs among the counted tags with its number of occurrences, min(n, number of distinct tags) are returned for n >= 0, and the ranking facts hold |
| Tags.RankedWhole | vector.py:257-260 | a slice at least as long as the dict keeps every pair of it |
| Tags.RankedComplete | vector.py:241-260 | the answer holds min(n, number of distinct tags) tags for n >= 0, and every counted tag once n reaches that number |
| Tags.TallySize | vector.py:241-246 | the tally has one pair per distinct tag |
| Tags.MissingIndex | vector.py:237-238 | fewer than n chosen indices leave an index below n out |
| Tags.BestOutside | vector.py:238 | an unchosen index whose score no other unchosen index exceeds |
| Tags.SelectTop | vector.py:237-238 | k distinct indices by descending score, and no index left out scores above a chosen one |
| Tags.CountTags | vector.py:241-254 | after both passes the dict is the tally of the normalised tags of the selected documents |
| Tags.CountDocumentTags | vector.py:244-246 | counting one document's tags extends the tally by its normalised tags |
| Tags.Fallback | vector.py:249-254 | the fallback loop sets every visited tag to 1 in the dict |
| Tags.MarkDocumentTags | vector.py:252-254 | one document's fallback iteration sets each of its first n normalised tags to 1 |
| Recommending.Similarities | vector.py:236 | `np.dot(self.vectors, query_vector.T).flatten()`: one similarity per training row (`SimilaritiesOfZeroQuery` for an all-zero query) |
| Recommending.DotZero | vector.py:236 | a row has similarity 0 with an all-zero query |
| Recommending.SimilaritiesOfZeroQuery | vector.py:236 | an all-zero query is equally similar (0) to every training row |
| Recommending.AnswerSpec | vector.py:240-260 | the answer has exactly min(n, number of distinct tags) distinct `#`-tags for n >= 0 (so every counted tag once n is that large), each with its occurrence count among the selected documents, non-increasing counts, none left out counted more, ties in first-seen order |
| Recommending.HashtagRecommender.constructor | vector.py:163-166 | the default vectorizer (n-grams 1..3, window 4, k1 1.5, b 0.75), unfitted, with no rows and no tags |
| Recommending.HashtagRecommender.Load | vector.py:204-209 | NoData for no texts, with nothing changed; otherwise the vectorizer is left as `fit` leaves it (`FittedOn`: vocabulary, idf table and average length), then the rows and tag lists are kept, or NotFitted with the old rows kept |
| Recommending.HashtagRecommender.Store | vector.py:208-209 | `transform` of the texts: NotFitted with nothing stored when the vectorizer refuses; otherwise one row per text, each vectorizing its text, and the tag lists kept |
| Recommending.HashtagRecommender.GetTopHashtags | vector.py:228-260 | NotInitialized without rows or tags, NotFitted when the query cannot be vectorized; otherwise the top-k rows by similarity to the query's row and the ranked tally of their tags |

## Left out

- CSV loading and topic-to-file matching (vector.py:174-202) are file I/O. `Load` receives the texts and tag lists that loading would produce, as two lists of equal length.
- Missing `tags` cells: in the code they are NaN and would raise when iterated. They are not modelled; every tag list is a sequence of strings.
- The pickle cache, `os.makedirs`, `initialize` and the interactive `__main__` loop are persistence and console I/O (vector.py:167-172, 211-226, 262-284).
- Floating point: all arithmetic is over exact reals.
  - `log` and `sqrt` are uninterpreted parameters.
  - NaN, infinities and rounding are not modelled.
  - Consequently the mean of an empty `doc_lengths` is stored as 0.0 rather than NaN.
- Bm25.Normalize: states only that each row is divided by one non-zero factor. It does not prove that a non-zero row has unit L2 norm, because that needs facts about `sqrt` that a parameter does not carry.
- Vectorizing.Vectorizer.constructor: requires k1 >= 0 and 0 <= b <= 1, which the code does not check. These are the settings under which the BM25 bounds hold; the recommender uses 1.5 and 0.75.
- Tags.SelectTop: `np.argsort(...)[-k:][::-1]` fixes one order among equal similarities. The model states only that the chosen k indices come by descending score and dominate the rest. The tie order is not modelled, because numpy's default sort is not stable.
- Unicode: `str.lower`, `\w` and `str.isspace` are restricted to ASCII.
- `doc_vectors` is an attribute the code never uses. It is not modelled.
- The fallback pass of vector.py:249-254 is modelled and called. It never changes the result, as `Tags.FallbackAddsNothing` proves; nothing of it is left out.
