# rust_vectorizer in Dafny

A model of the core of `rust_vectorizer`, a small Rust crate that turns a
collection of text documents into a count matrix and a Tf-Idf matrix, in the
manner of scikit-learn's `CountVectorizer` and `TfidfVectorizer`.

- `tokenizer.dfy` (module `Tokenization`): word extraction (`\b\w\w+\b`), n-gram
  expansion with words joined by one space, the case option, and tokenizing a
  collection of documents.
- `countvectorizer.dfy` (module `CountVectorization`): the `fit_transform` loop
  that gives every new token the next id and counts tokens per document, the
  dense layout of the counts (`_sort_vocabulary_count`), and the reverse
  vocabulary.
- `ndarray_extension.dfy` (module `NdarrayExtension`): `vec2diagonal`, the
  matrix product, `row_norms`, `l1_normalize` and `l2_normalize`.
- `tfidfvectorizer.dfy` (module `TfidfVectorization`): term frequency, document
  frequency, idf weights, the Tf-Idf transform and `fit_transform`.
- `scenarios.dfy` (module `Scenarios`) and `example_words.dfy` (module
  `ExampleWords`): the repository's test examples restated over the model.
- `arrays.dfy` and `outcomes.dfy`: shapes, sums, `Option` and `Result`.

Matrices are sequences of rows; counts are `nat`, floating-point values are
`real`. The natural logarithm and the square root are function parameters
(`ln`, `sqrt`): nothing is claimed about their values except where a lemma
names the property it relies on (`LogLike`: nonnegative from 1 on;
`RootLike`: zero exactly at zero). The regex word class and Unicode case
mapping are parameters too (`TextOps`). Dividing a row that has entries by a
zero norm, or dividing by a zero smoothed document frequency, would give
infinite or NaN entries in Rust; the model returns a `Failure` that names the
offending row or column instead. A row without entries, as in a matrix with
no columns, divides to an empty row, as ndarray's broadcast does. Methods that take `&mut self` in Rust
return the updated vectorizer instead.

## Model

| member | source | states |
|---|---|---|
| Tokenization.NewTokenizer | src/tokenizer.rs:30-46 | construction accepts every n-gram range, an empty one or one starting at 0 included, and keeps the range and the case option as given |
| Tokenization.WordsFrom | src/tokenizer.rs:74-78 | every word found has at least two characters, all of them word characters |
| Tokenization.WordsAreScan | src/tokenizer.rs:74-78 | the words of a document are exactly what a one-pass character scanner emits: each maximal run of word characters of length two or more, left to right |
| Tokenization.SplitJoin | src/tokenizer.rs:61-64 | joining words with single spaces loses nothing: splitting the n-gram on spaces gives back the words, when there is at least one word and none contains a space |
| Tokenization.WordsCons | src/tokenizer.rs:74-78 | a word of two or more word characters followed by a nonempty run of other characters is extracted, and extraction continues after the run |
| Tokenization.WordsOfInterleave | src/tokenizer.rs:74-78 | words of two or more word characters separated by nonempty runs of other characters are extracted exactly, in order |
| Tokenization.WordsHaveNoSpace | src/tokenizer.rs:74-78 | when the space is not a word character, no extracted word contains a space |
| Tokenization.NgramSplits | src/tokenizer.rs:59-65 | when the space is not a word character, splitting any n-gram of size at least 1 on spaces gives back the consecutive words it was built from |
| Tokenization.WordNgrams | src/tokenizer.rs:53-68 | the n-gram list is empty exactly when the range is inverted (the case the constructor warns about) or starts beyond the number of words of the document |
| Tokenization.NgramCount | src/tokenizer.rs:53-68 | for k words the number of n-grams is the sum of k - n + 1 over the sizes n from minN to min(maxN, k) |
| Tokenization.NgramAt | src/tokenizer.rs:59-65 | every window of n consecutive words with n in range appears, joined by spaces, at a computed position |
| Tokenization.NgramOrder | src/tokenizer.rs:59-65 | smaller sizes come first, and within a size earlier starts come first |
| Tokenization.NgramCover | src/tokenizer.rs:59-65 | every emitted n-gram is such a window: nothing else is produced |
| Tokenization.ZeroFloor | src/tokenizer.rs:56-63 | a range starting at 0 first yields k + 1 empty strings, then the n-grams from size 1 on |
| Tokenization.UnigramsAreWords | src/tokenizer.rs:53-68 | the range 1..1 yields the words themselves |
| Tokenization.ApplyCase | src/tokenizer.rs:82-95 | the case option converts each n-gram separately and keeps their number and order |
| Tokenization.TokenizeDoc | src/tokenizer.rs:72-98 | a document yields one token per n-gram of its words |
| Tokenization.Tokenize | src/tokenizer.rs:132-140 | one token list per document |
| Tokenization.TokenizeAppend | src/tokenizer.rs:132-140 | documents are tokenized independently and in order: tokenizing two collections one after the other equals tokenizing them together |
| CountVectorization.NewCountVectorizer | src/countvectorizer.rs:32-41 | a new vectorizer starts with an empty vocabulary and keeps the given settings |
| CountVectorization.SortVocabularyCount | src/countvectorizer.rs:48-59 | the dense matrix has one row per document and one column per id, holding the sparse count of that id or 0 |
| CountVectorization.CountToken | src/countvectorizer.rs:141-150 | after one token the vocabulary still numbers the first occurrences of the stream from 0 and the counts still tally the document so far |
| CountVectorization.CountDocument | src/countvectorizer.rs:137-153 | after a document the ids follow first occurrence over all tokens read and the sparse counts are the document's token multiplicities |
| CountVectorization.CountTokens | src/countvectorizer.rs:126-156 | ids are positions in the list of distinct tokens by first occurrence; the vocabulary holds exactly the tokens seen; entry (i, id of t) is the number of occurrences of t in document i; each row sums to its document's token count; every column is used |
| CountVectorization.FitTransform | src/countvectorizer.rs:126-156 | fitting tokenizes with the vectorizer's settings and yields the counts above, keeps the settings, and its vocabulary is what the id loop produces from an empty vocabulary |
| CountVectorization.FirstSeenHead | src/countvectorizer.rs:135-146 | the first token of the stream gets id 0 |
| CountVectorization.IdsFollowFirstOccurrence | src/countvectorizer.rs:143-146 | a token that occurs earlier in the stream than another's first occurrence has a smaller id |
| CountVectorization.CountMatrixTotals | src/countvectorizer.rs:141-155 | row sums equal document lengths and no column is all zero |
| CountVectorization.AssignIds | src/countvectorizer.rs:135-146 | the id loop as written, from an existing vocabulary: known tokens keep their ids and the keys become the old ones plus the tokens seen |
| CountVectorization.RefitSharesIds | src/countvectorizer.rs:135-146 | fitting a vectorizer that already holds an id-0 token, on documents starting with a new token, gives two tokens id 0 |
| CountVectorization.AssignIdsFollowFirstSeen | src/countvectorizer.rs:135-146 | continuing from ids that follow first occurrence with the counter at the number of distinct tokens already seen, the loop as written keeps them following first occurrence; the source's counter of 0 meets this only for an empty vocabulary |
| CountVectorization.FreshAssignment | src/countvectorizer.rs:135-146 | on a new vectorizer the loop as written gives the same vocabulary as the counting method |
| CountVectorization.ReverseVocabulary | src/countvectorizer.rs:161-168 | the reverse map's keys are the ids in use, each mapped to a token with that id; for an injective vocabulary it is the exact inverse |
| CountVectorization.ReverseVocabularySize | src/countvectorizer.rs:161-168 | for an injective vocabulary the reverse map has as many entries as the vocabulary |
| CountVectorization.FittedReverse | src/countvectorizer.rs:161-168 | after a fit, id j maps back to the j-th distinct token and there are no other ids |
| NdarrayExtension.Vec2Diagonal | src/ndarray_extension.rs:30-38 | a square matrix with the vector on the diagonal and 0 elsewhere |
| NdarrayExtension.DotDiagonal | src/tfidfvectorizer.rs:109-111 | multiplying by the diagonal matrix of a vector scales each column by the vector's entry |
| NdarrayExtension.RowNorms | src/ndarray_extension.rs:40-44 | one norm per row, the square root of the row's sum of squares |
| NdarrayExtension.SquaresSumZero | src/ndarray_extension.rs:40-44 | the sum of squares is nonnegative and 0 exactly for a row of zeros |
| NdarrayExtension.L1Normalize | src/ndarray_extension.rs:46-52 | succeeds exactly when no row with entries has absolute values summing to 0; each row becomes its absolute values divided by their sum, and a row without entries stays empty; otherwise names a row with entries and sum 0 |
| NdarrayExtension.L1NormalizedRows | src/ndarray_extension.rs:46-52 | after L1 normalisation rows keep their length, entries are nonnegative, zeros stay zero, and every row with entries sums to 1 |
| NdarrayExtension.L1NormalizedRow | src/ndarray_extension.rs:46-52 | a row with a nonzero sum of absolute values, divided by that sum, has nonnegative entries, keeps its zeros and sums to 1 |
| NdarrayExtension.L2Normalize | src/ndarray_extension.rs:54-59 | succeeds exactly when no row with entries has norm 0; each row becomes itself divided by its norm, and a row without entries stays empty; otherwise names a row with entries and norm 0 |
| TfidfVectorization.NewTfidfVectorizer | src/tfidfvectorizer.rs:46-58 | a new vectorizer has an empty vocabulary, smoothed idf, raw term frequencies and the L2 norm |
| TfidfVectorization.CreateCountvector | src/tfidfvectorizer.rs:60-66 | the counts come from a fresh count vectorizer with the same settings, whose vocabulary is adopted; nothing else changes |
| TfidfVectorization.TermFrequency | src/tfidfvectorizer.rs:68-79 | counts as reals, or ln(count) + 1 under sublinear scaling, same shape |
| TfidfVectorization.TermFrequencyRowSum | src/tfidfvectorizer.rs:68-79 | without sublinear scaling each row of term frequencies sums to the row's total count |
| TfidfVectorization.DocumentFrequency | src/tfidfvectorizer.rs:81-86 | one frequency per column, none larger than the number of documents |
| TfidfVectorization.DocumentFrequencyCounts | src/tfidfvectorizer.rs:81-86 | the document frequency of a column is the number of rows with a nonzero entry there |
| TfidfVectorization.DocumentFrequencyPositive | src/tfidfvectorizer.rs:81-86 | a document frequency is positive exactly when the column is used |
| TfidfVectorization.IdfWeights | src/tfidfvectorizer.rs:88-104 | weight ln((n + s) / (df + s)) + 1 per column; fails exactly when unsmoothed with an unused column, and names it |
| TfidfVectorization.IdfRatioOrder | src/tfidfvectorizer.rs:95-102 | the ratio inside the logarithm is at least 1, and a column in fewer documents gets a ratio at least as large |
| TfidfVectorization.IdfAtLeastOne | src/tfidfvectorizer.rs:95-102 | with smoothing or every column used, and a logarithm nonnegative from 1 on, the idf weights are defined and every one is at least 1 |
| TfidfVectorization.Tfidf | src/tfidfvectorizer.rs:106-113 | the Tf-Idf matrix keeps the count matrix's shape; an idf failure is passed on; otherwise it succeeds exactly when there are no columns or no weighted row has norm 0, and a failure names a zero-norm row |
| TfidfVectorization.TfidfTransform | src/tfidfvectorizer.rs:106-113 | the product with the diagonal idf matrix followed by L2 normalisation equals the column-scaling definition |
| TfidfVectorization.TfidfRows | src/tfidfvectorizer.rs:106-113 | a successful transform's row i is the weighted row i divided by its L2 norm, which is nonzero unless there are no columns |
| TfidfVectorization.ZeroNormIffEmptyRow | src/tfidfvectorizer.rs:106-113 | with smoothing or every column used, raw term frequencies, and a real logarithm and square root, the transform fails exactly when there are columns and some row has no counts, and names such a row |
| TfidfVectorization.NoColumnsIffNoTokens | src/countvectorizer.rs:126-156 | a count matrix of tokenized documents has no columns exactly when no document has a token |
| TfidfVectorization.EmptyDocumentFails | src/tfidfvectorizer.rs:183-188 | over the counts of tokenized documents, without sublinear scaling and with a real logarithm and square root, the transform fails exactly when some document has no tokens and another has some, and then names a document without tokens |
| TfidfVectorization.FitTransform | src/tfidfvectorizer.rs:183-188 | fitting adopts the vocabulary of the tokens by first occurrence, computes the count matrix of the tokens, and returns the Tf-Idf transform of exactly that matrix: a documents-by-vocabulary matrix or a zero-norm row; the vocabulary is empty exactly when no document has a token, and without sublinear scaling, with a real logarithm and square root, it fails exactly when the vocabulary is nonempty and some document has no tokens |
| Scenarios.BigramExample | src/tokenizer.rs:53-68 | with range 1..2, three words give the three words and then the two adjacent pairs |
| Scenarios.DiagonalExample | tests/ndarray_extension_test.rs:27-49 | the diagonal matrix of [0.5, 0.25, 0.25] |
| Scenarios.L1Example | tests/ndarray_extension_test.rs:53-68 | the L1 normalisation of the test's 3 x 3 matrix |
| Scenarios.L2NormsExample | tests/ndarray_extension_test.rs:72-91 | the row norms of that matrix are the square roots of 3, 5 and 25 |
| Scenarios.OneHotTermFrequency | src/tfidfvectorizer.rs:244-260 | a new vectorizer's term frequencies of the one-hot counts are those counts |
| Scenarios.DenseTermFrequency | src/tfidfvectorizer.rs:244-260 | the same for the counts 1 to 12 |
| Scenarios.OneHotDocumentFrequency | src/tfidfvectorizer.rs:262-270 | the document frequencies of the one-hot counts are [2, 1, 1] |
| Scenarios.DenseDocumentFrequency | src/tfidfvectorizer.rs:262-270 | the document frequencies of the counts 1 to 12 are [4, 4, 4] |
| Scenarios.FruitsWords | tests/countvectorizer_test.rs:7-8 | with a word class that keeps letters and drops commas, full stops and spaces, the first test document yields its thirteen words in order |
| Scenarios.NumbersWords | tests/countvectorizer_test.rs:9 | the same for the second test document and its eleven words |
| Scenarios.ExampleTokens | tests/countvectorizer_test.rs:7-12 | with the range 1..1 and no case conversion, the two test documents tokenize to their words |
| Scenarios.ExampleCounts | tests/countvectorizer_test.rs:18-25 | any counts meeting the count vectorizer's contract over those words have 7 distinct words, "apple" with id 0, 4 times in the first document and once in the second |
| Scenarios.CountExample | tests/countvectorizer_test.rs:7-25 | fitting the two test documents with the range 1..1 gives 7 distinct words, "apple" with id 0, occurring 4 times in the first document and once in the second |
| Scenarios.RefitExample | src/countvectorizer.rs:135-146 | a vectorizer fitted on "apple" and then on "banana" gives both words id 0 |

## Left out

- The values of `f64::ln` and `f64::sqrt`: they are parameters; lemmas that need them assume only `LogLike` or `RootLike`.
- Floating-point rounding, infinities and NaN: reals are exact, and a division by a zero norm or a zero smoothed document frequency is a `Failure` rather than a matrix of non-finite entries.
- `ndarray_extension::bincount`, called by `_get_document_frequency`, is not part of this model (it is not defined in `src/ndarray_extension.rs`); `DocumentFrequency` follows the expectations of the in-crate test: per column, the number of rows with a nonzero entry.
- The regex engine and Unicode: the word-character class is the parameter `isWord`, and `to_uppercase` and `to_lowercase` are the parameters `upper` and `lower`.
- Hash map iteration order: `ReverseVocabulary` takes the order in which entries are visited as a parameter.
- Integer widths: `u32` n-gram sizes and `u64` ids and counts are unbounded, so `max_n + 1` overflowing at `u32::MAX` is not modelled.
- The warnings printed by `Tokenizer::new` and all other printing.
- The `norm` field: it is stored, but the transform always uses the L2 norm, as the Rust code does.
- TfidfVectorization.TermFrequency: under sublinear scaling the code applies ln to every entry, zero counts included; the model does the same and leaves what ln(0) is to the parameter.
- The in-crate count test at `src/tfidfvectorizer.rs:206-210` expects 8 vocabulary entries for the n-gram range 1..2; the definitions give 24, as `tests/tfidfvectorizer_test.rs:17-21` expects, and neither figure is restated here.
- Scenarios.CountExample: the test calls a no-argument constructor that the crate no longer has; the model uses the range 1..1 and no case conversion. The word class is a parameter, constrained only on the characters of the two documents (`Separating`), and the documents are built from their words and separators with `Interleave` rather than written as one string literal.
- Scenarios.L2NormsExample: states only the norms; the normalised matrix is `L2Normalize`'s contract.
- `tokenizer2.rs`, `deprecated/`, `main.rs` and `lib.rs` are not part of this model.

## Findings

| source | as written | input that shows it | evidently intended | confidence | as-written member | corrected member |
|---|---|---|---|---|---|---|
| src/countvectorizer.rs:135-146 | `fit_transform` keeps the existing `vocabulary_` but starts the id counter at 0 | fit on "apple", then fit again on "banana": both tokens get id 0 and share a column | each fit builds the vocabulary afresh, so ids follow first occurrence in the new documents | medium, not executed | CountVectorization.AssignIds, CountVectorization.RefitSharesIds | CountVectorization.FitTransform |

The as-written half of this finding covers the ids only. The count update
at src/countvectorizer.rs:145-149 keys each cell by id. So after such a refit,
the new token's counts sit in the column whose id the old token also
holds, and the reverse vocabulary can name only one of them. The model does
not restate this for the count matrix.
