# Document distance in Dafny

A verified model of `document_distance.py`, a small text-analysis module. It
compares two texts in two ways:

- a **similarity score**: one minus the sum of per-key count differences
  (the L1 distance between the word or letter count vectors, for the
  non-negative counts `get_frequencies` builds), divided by their total mass;
- a **TF-IDF ranking**: each word of a target text scored by term frequency
  times inverse document frequency over a corpus, then sorted by score.

Both are built from plain dictionary and list loops. Those loops are modelled
as Dafny methods with loops and invariants. Each method is proved against a
specification function, and the properties the module promises are proved as
lemmas about those functions.

Files (one module each):

- `seqs.dfy` (`Seqs`): sequence vocabulary. It holds de-duplication in
  first-occurrence order (`Dedup`), the words of one list missing from another
  (`Missing`), corpus flattening, document counts, and their lemmas.
- `pydict.dfy` (`PyDict`): a Python dictionary as `Dict(keys, vals)`. The keys
  are kept in insertion order, because Python iterates a dict in that order and
  the tie order of the TF-IDF ranking depends on it. It also holds the errors
  Python raises (`ZeroDivisionError`, `ValueError`, `KeyError`) as a `Result`
  type, and sums over keys.
- `frequencies.dfy` (`Frequencies`): `combine`, `get_frequencies`,
  `get_letter_frequencies`.
- `similarity.dfy` (`Similarity`): `calculate_similarity_score`.
- `order.dfy` (`Order`): string order, the insertion sort standing in for
  `sorted`, and the stable sort by score standing in for
  `list.sort(key=...)`.
- `most_frequent.dfy` (`MostFrequent`): `get_most_frequent_words`.
- `tfidf.dfy` (`TfIdf`): `get_tf`, `get_idf`, `get_tfidf`, and the corrected
  ranking described under Findings.

Dafny datatype values are immutable, so "`combine` does not alter its inputs"
holds by construction.

Behaviour on edge cases, as the code has it:

- `get_tf([])` returns `{}`: the loop over the empty frequency dictionary
  never runs, so there is no division by `len(word_list) == 0`.
- `get_idf([])` returns `{}`: `big_list` is empty, so the loop that computes
  `log10(len(text_files) / word_counter)` never runs.
- `get_most_frequent_words` of two empty dictionaries raises `ValueError`:
  `max` of the empty `combined.values()` raises.
- `get_tfidf` breaks score ties by first occurrence in the target text, not
  alphabetically as the comment on line 223 intends (see Findings).

## Model

| member | source | states |
|---|---|---|
| Frequencies.Combine | document_distance.py:26-38 | the result has the keys of `dict1` in order, then the new keys of `dict2`; each count is `dict1.get(k, 0) + dict2.get(k, 0)` |
| Frequencies.Copy | document_distance.py:28-30 | the first loop of `combine` rebuilds `dict1` exactly: same keys, same order, same counts |
| Frequencies.AddedInCounts | document_distance.py:32-36 | after the second loop has visited some keys of `dict2`, the keys are those of `dict1` plus the visited ones, and each count is the `dict1` count plus the `dict2` count if visited |
| Frequencies.CombinedKeysMembers | document_distance.py:26-38 | the combined keys hold every key of either dictionary exactly once |
| Frequencies.CombinedValid | document_distance.py:26-38 | `combine` builds a well-formed dictionary |
| Frequencies.CombinedSum | document_distance.py:26-38 | the combined counts sum to the sum of both inputs' totals |
| Frequencies.CombinedSymmetric | document_distance.py:26-38 | swapping the arguments gives the same counts for the same key set; only the key order differs |
| Frequencies.GetFrequencies | document_distance.py:56-74 | the keys are the distinct words in first-occurrence order; each count is the word's number of occurrences and at least 1; the counts sum to `len(word_list)` |
| Frequencies.CountsSumToLength | document_distance.py:65-74 | counting each distinct word once accounts for every position of the list |
| Frequencies.CharsCount | document_distance.py:88 | `list(word)` holds exactly the one-letter strings of the word's letters, each as often as the letter occurs |
| Frequencies.GetLetterFrequencies | document_distance.py:79-91 | `get_frequencies(list(word))`: one key per distinct letter, counted as often as it occurs in `word`; the counts sum to `len(word)` |
| Similarity.OneMinusRatio | document_distance.py:120 | `1 - DIFF / ALL` raises `ZeroDivisionError` exactly when `ALL == 0` |
| Similarity.CalculateSimilarityScore | document_distance.py:94-120 | `ALL` is the sum of both dictionaries' counts, `DIFF` is the sum of the three branch differences over the combined keys, and the score is `1 - DIFF / ALL` or the division error |
| Similarity.SumDifferences | document_distance.py:104-118 | the loop adds every combined count into `ALL` and, through the three branches, each key's count difference into `DIFF` |
| Similarity.DiffSumOver | document_distance.py:108-118 | summing the per-key differences in loop order equals summing the difference map over the same keys |
| Similarity.DistanceOver | document_distance.py:108-118 | `DIFF` is the sum of the difference map over the combined keys |
| Similarity.DistanceIsL1 | document_distance.py:108-118 | for non-negative counts, `DIFF` is the L1 distance: the sum over every key of either dictionary of `abs(dict1.get(k, 0) - dict2.get(k, 0))` |
| Similarity.DistanceSymmetric | document_distance.py:104-118 | `DIFF` is the same with the arguments swapped |
| Similarity.ScoreSymmetric | document_distance.py:94-120 | the score, or the error, is the same with the arguments swapped |
| Similarity.DistanceBounds | document_distance.py:104-118 | for non-negative counts, `0 <= DIFF <= ALL` |
| Similarity.ScoreBounds | document_distance.py:94-120 | for non-negative counts with `ALL != 0`, the score is defined and lies in [0, 1] |
| Similarity.DistanceSelf | document_distance.py:111-112 | a dictionary compared with itself has `DIFF == 0` |
| Similarity.ScoreSelf | document_distance.py:94-120 | a dictionary with a non-zero total compared with itself scores exactly 1 |
| Similarity.DistanceDisjoint | document_distance.py:113-118 | dictionaries with no common key have `DIFF == ALL` |
| Similarity.ScoreDisjoint | document_distance.py:94-120 | dictionaries with no common key and a non-zero total score exactly 0 |
| Similarity.TotalPositive | document_distance.py:65-74 | with every count at least 1, the total is at least the number of keys |
| Similarity.ScoreFailsOnlyWhenEmpty | document_distance.py:104-120 | for dictionaries built by `get_frequencies`, the division fails exactly when both are empty |
| MostFrequent.MaxValue | document_distance.py:133 | `max(d.values())` raises `ValueError` exactly on an empty dictionary; otherwise it returns a count of `d` that is at least every count |
| MostFrequent.KeysWithMembers | document_distance.py:136-139 | the loop keeps exactly the keys whose count equals the maximum, each once |
| MostFrequent.MostFrequentAtMax | document_distance.py:133-139 | a key has the largest combined count exactly when its count equals `max_freq` |
| MostFrequent.CombinedEmpty | document_distance.py:131-133 | the combined dictionary is empty exactly when both inputs are |
| MostFrequent.GetMostFrequentWords | document_distance.py:123-141 | raises `ValueError` exactly when both inputs are empty; otherwise returns exactly the words of largest combined count, strictly ascending |
| MostFrequent.HelloWorldExample | document_distance.py:260-262 | `{"hello": 5, "world": 1}` and `{"hello": 1, "world": 5}` give `["hello", "world"]` |
| Order.SortBy | document_distance.py:141 | `sorted`: the result is ordered and a permutation of the input |
| Order.InsertBy | document_distance.py:141 | inserting one element into an ordered list keeps it ordered and adds exactly that element |
| Order.StrictlySortedUnique | document_distance.py:141 | two strictly ascending lists with the same elements are equal, so `sorted` of distinct words is determined by their set |
| Order.OrderedDistinctStrict | document_distance.py:141 | sorting distinct words gives a strictly ascending list |
| Order.SortByScore | document_distance.py:224 | `list.sort(key=score)`: the result is sorted by score, is a permutation of the input, and keeps each group of equal scores in input order (stable) |
| Order.InsertByScore | document_distance.py:224 | one step of the stable sort: the new entry goes at the end of its own score group |
| Order.InsertKeepsBuckets | document_distance.py:224 | inserting after every entry that scores no more leaves the other score groups unchanged |
| Order.WithScoreMembers | document_distance.py:224 | a score group holds exactly the entries with that score |
| Seqs.DedupMembers | document_distance.py:184-188 | the de-duplicated list has exactly the elements of the input |
| Seqs.DedupDistinct | document_distance.py:184-188 | the de-duplicated list has no element twice |
| Seqs.DedupFirstOccurrenceOrder | document_distance.py:184-188 | the de-duplicated list is in order of first occurrence |
| Seqs.DocCountBounds | document_distance.py:192-196 | `word_counter` lies between 1 and the number of documents for every word of the corpus |
| Seqs.FlattenMembers | document_distance.py:184-188 | a word is in the corpus exactly when some document holds it |
| PyDict.SumOverSameKeys | document_distance.py:108-109 | the sum of counts does not depend on the order of the keys |
| TfIdf.GetTf | document_distance.py:145-165 | one entry per distinct word in first-occurrence order, with value count / `len(word_list)`; an empty list gives `{}` |
| TfIdf.DivideCounts | document_distance.py:161-163 | the loop of `get_tf` keeps the keys and their order and divides each count by the list length |
| TfIdf.TfBounds | document_distance.py:163 | every TF lies in (0, 1] |
| TfIdf.TfSumsToOne | document_distance.py:161-163 | the TFs of a non-empty list sum to 1 |
| TfIdf.UniqueWords | document_distance.py:184-188 | `big_list` is the de-duplicated concatenation of the documents |
| TfIdf.DocumentCount | document_distance.py:192-196 | `word_counter` is the number of documents holding the word |
| TfIdf.GetIdf | document_distance.py:169-199 | one entry per word of the corpus in first-occurrence order, with value `log10(N / word_counter)`; no documents give `{}` |
| TfIdf.IdfEveryDocument | document_distance.py:197 | a word held by every document gets `log10(1)`, which is 0 when `log10(1) == 0` |
| TfIdf.EntriesWords | document_distance.py:218-221 | `tfidf_list` has one entry per word of `tf_dict`, in its order |
| TfIdf.EntriesDistinct | document_distance.py:218-221 | distinct words give distinct entries |
| TfIdf.TfidfList | document_distance.py:218-221 | the loop builds `(word, tf * idf)` for each word of `tf_dict`, or raises `KeyError` for the first word `idf_dict` lacks |
| TfIdf.GetTfidf | document_distance.py:202-226 | raises `KeyError` with the first target word absent from the corpus exactly when there is one; otherwise returns the entries sorted by score, a permutation, with ties in first-occurrence order |
| TfIdf.MissingSameMembers | document_distance.py:220 | which words raise `KeyError` depends only on the set of corpus words |
| TfIdf.TfidfFailsIff | document_distance.py:220 | `get_tfidf` raises exactly when some target word occurs in no document |
| TfIdf.SameScoreKeepsOrder | document_distance.py:224 | a stable sort of entries with one common score leaves them in place |
| TfIdf.TiePairEntries | document_distance.py:218-221 | for target `x y` and the one document `x y`, the entry list is `x` then `y`, both scoring `0.5 * log10(1)` |
| TfIdf.TieOrderCounterexample | document_distance.py:223-224 | with `y` before `x` in word order, `get_tfidf` returns `x` before `y`: ties are not alphabetical |
| TfIdf.ScoreThenWordIsStrictOrder | document_distance.py:223-224 | ordering by score and then by word is a strict order |
| TfIdf.GetTfidfIntended | document_distance.py:223-224 | with `sort()` called, the result is a permutation of the entries ordered by score and, on equal scores, by word |

## Left out

- `load_file` (document_distance.py:10-23) reads a file and strips punctuation. That is I/O, so `get_tf`, `get_idf` and `get_tfidf` take already-normalised word lists.
- `prep_data` (document_distance.py:43-51) relies on `str.split`. The tokenizer is outside the model; its output is the word list passed in.
- `math.log10` is a parameter `log10: real -> real`. Its floating-point value is not modelled. The fact `log10(1) == 0` appears as a hypothesis where it is used.
- `Similarity.CalculateSimilarityScore`: the final `round(..., 2)` is not modelled. The score is the exact real `1 - DIFF / ALL`, and `DIFF` and `ALL` are returned with it.
- TF, the similarity score and the TF-IDF product `tf_dict[word] * idf_dict[word]` (document_distance.py:220) use exact reals in place of floating-point arithmetic, so rounding error is not modelled; in particular, which TF-IDF entries tie depends on floating-point equality of those products, and the model compares the exact products instead.
- `Order.SortBy` and `Order.SortByScore` are insertion sorts, not Timsort. A stable sort has only one possible result, so this does not change any output.
- `TfIdf.Entries` reads a missing TF or IDF as 0. This case never arises: `TfIdf.TfidfList` only returns entries once every word is known to be in both dictionaries.
- The `__main__` block (document_distance.py:229-271) prints results. Only its `get_most_frequent_words` example is modelled, as `MostFrequent.HelloWorldExample`.
- The unused `pyparsing` import (document_distance.py:6) has no effect.

## Findings

| source | as written | input that shows it | evidently intended | confidence | as-written member | corrected member |
|---|---|---|---|---|---|---|
| document_distance.py:223 | `tfidf_list.sort` names the method without calling it, so nothing is sorted by word; the stable sort by score on line 224 leaves equal scores in first-occurrence order | target `b a` with the one document `b a`: both words score `0.5 * log10(1)` and the result is `[("b", …), ("a", …)]` | `tfidf_list.sort()`, so that equal scores come out alphabetically, as the comment on line 223 says | not executed | TfIdf.TieOrderCounterexample | TfIdf.GetTfidfIntended |
