# Keyword ranking of the Keyword Extraction App, in Dafny

The app takes a text, turns it into a TF-IDF row with a pretrained
`CountVectorizer` and `TfidfTransformer`, and shows the top-N terms of that row
with a "confidence" for each: the term's share of the kept scores, as a
percentage. This project models the three steps in `app.py` that do the ranking
and proves what each step promises:

- `sort_coo` (module `Sorting`). It pairs each column of the sparse row with its
  value and sorts the pairs by value, highest first. Python's `sorted` is stable
  also with `reverse=True`. The model is a stable insertion sort written as a
  function (`SortByScore`). It is proved to be a permutation of the row, to be
  non-increasing in score, and to keep pairs of equal score in row order. It is
  also proved to be the only sequence with those three properties.
- `extract_topn_from_vector` (module `TopN`). It slices off the first `topn`
  pairs and fills a dict in a loop. The model is a method with that loop
  (`ExtractTopN`). It is proved against `Store`, the dict that the successive
  `results[term] = score` assignments leave. Dict assignment is modelled with
  Python's semantics (module `Dicts`): a dict remembers insertion order, and
  assigning to an existing key keeps its place and replaces the value.
- `get_keywords_with_confidence` (module `Confidence`). It sums the kept scores
  and divides each by the total, times 100. `Normalize` models that
  comprehension. When the dict is non-empty and its total is 0 it returns the
  separate result `DivisionByZero`. `GetKeywordsWithConfidence` chains the three
  steps. `Rank` is the function it is proved equal to, and the lemmas
  `Rank…` state what the pipeline guarantees.

Inputs the model takes as given:
- the TF-IDF row, as `cols: seq<nat>` and `data: seq<real>`, which are
  `coo.col` and `coo.data`;
- the vocabulary, as `featureNames: seq<string>`, which is
  `get_feature_names_out()`;
- `topn >= 1`, since the only caller passes a slider value in 1..20
  (`app.py:85`).

Behaviour of the code that a reader might not expect:
- The code does not validate `topn`. Its only caller is a slider that allows
  1..20. The model requires `topn >= 1`.
- A text with no known terms gives an empty dict, not an error. The sum is 0,
  but the comprehension has no entry to divide. `RankEmptyRow` proves this.
- The code itself does not reject empty or whitespace-only text. Only the
  caller guards it (`app.py:114`). Text is not part of this model.
- A total of 0 with at least one kept term. The scores come from `coo.data`,
  so they and their sum are NumPy floats. Dividing by that zero sum gives NaN
  with a runtime warning, not an exception. The model returns the separate
  result `DivisionByZero` there. `RankPositiveRow` proves this cannot happen
  when all row values are positive, which holds for the stored entries of a
  TF-IDF row.
- Ties. Equal scores keep the row's order, because Python's sort is stable.

## Model

| member | source | states |
|---|---|---|
| `Dicts.Find` | app.py:25 | the position of a key is one holding that key with no earlier one; there is none exactly when the key is absent |
| `Dicts.LookupFound` | app.py:25 | `d[k]` has a value exactly when `k` is a key of `d` |
| `Dicts.Assign` | app.py:25 | `results[k] = v` leaves the key list unchanged when `k` is present and appends `(k, v)` otherwise; it keeps keys distinct and keeps values non-negative (positive) |
| `Dicts.AssignLookup` | app.py:25 | after `results[k] = v`, `k` maps to `v`, every other key keeps its value, and the keys are the old keys plus `k` |
| `Dicts.SumValues` | app.py:39 | `sum(keywords.values())` is 0 for an empty dict, non-negative over non-negative values, and positive over a non-empty dict of positive values |
| `Dicts.SumValuesNonNegative` | app.py:39 | the sum of non-negative values is non-negative and at least each value |
| `Sorting.Zip` | app.py:17 | `zip(coo.col, coo.data)` has one pair per row entry, and unzipping it gives back the columns and the values |
| `Sorting.Insert` | app.py:18 | inserting a pair adds exactly that pair to the multiset of pairs |
| `Sorting.InsertDescending` | app.py:18 | inserting into a non-increasing sequence keeps it non-increasing |
| `Sorting.SortByScore` | app.py:18 | the sorted pairs are a permutation of the input (same multiset, same length) and non-increasing in score |
| `Sorting.WithScoreAppend` | app.py:18 | the pairs of a given score in `a + b` are those of `a` followed by those of `b` |
| `Sorting.WithScoreInsert` | app.py:18 | insertion puts the new pair before every pair of equal score already present |
| `Sorting.SortByScoreStable` | app.py:18 | the sort is stable: for every score, the pairs with that score appear in the same relative order as in the input |
| `Sorting.WithScoreMembers` | app.py:18 | a pair is among those of score `v` exactly when it is in the sequence and has score `v` |
| `Sorting.HeadScoreAtLeast` | app.py:18 | a non-increasing sequence starts with a score at least as high as any sequence with the same ties |
| `Sorting.SameHead` | app.py:18 | two non-increasing sequences with the same ties start with the same pair |
| `Sorting.SameTiesTail` | app.py:18 | removing a common first pair leaves the ties equal |
| `Sorting.StableSortUnique` | app.py:18 | two non-increasing sequences with the same per-score order are equal: a stable descending sort has one possible result |
| `Sorting.SortByScoreCharacterized` | app.py:18 | a sequence is non-increasing with the input's per-score order if and only if it is `SortByScore` of the input |
| `Sorting.DistinctIndicesOnce` | app.py:17 | a row with distinct columns holds each pair at most once |
| `Sorting.PermutationDistinctIndices` | app.py:17-18 | rearranging a row with distinct columns keeps the columns distinct |
| `Sorting.MembersOfPermutation` | app.py:17-18 | every element of a rearrangement occurs in the original |
| `Sorting.SortCoo` | app.py:15-18 | `sort_coo` returns the zipped (column, value) pairs permuted, non-increasing in value, with ties in row order, every pair taken from the row |
| `TopN.Take` | app.py:22 | `sorted_items[:topn]` for `topn >= 1` is the prefix of length `min(topn, len(sorted_items))` |
| `TopN.Store` | app.py:23-25 | the loop's dict has distinct keys and at most one entry per pair; it is non-empty when there are pairs; non-negative (positive) scores give non-negative (positive) values |
| `TopN.StoreKeys` | app.py:23-25 | the keys of the loop's dict are exactly the terms of the pairs it read |
| `TopN.LastTermFresh` | app.py:24-25 | with distinct terms, the last pair's term is not yet a key |
| `TopN.StoreFresh` | app.py:23-25 | with distinct terms no entry is overwritten: the dict is the pairs, in order, each under its term with its score |
| `TopN.DistinctIndicesDistinctTerms` | app.py:25 | distinct feature indices over a vocabulary of distinct terms name distinct terms |
| `TopN.ExtractTopN` | app.py:20-26 | the loop over `sorted_items[:topn]` returns the dict the assignments define, and, with distinct terms, exactly the named prefix in order |
| `TopN.TopNOfSorted` | app.py:22-25 | with distinct terms and sorted input, the dict has exactly `min(topn, len)` entries, the i-th naming the i-th pair with its score, so the kept scores never increase |
| `Confidence.Shares` | app.py:40 | the comprehension keeps the keys in order, and each new value times the total is the old value times 100 |
| `Confidence.Normalize` | app.py:39-40 | the result is `DivisionByZero` exactly when the dict is non-empty and sums to 0; an empty dict gives an empty dict; otherwise the keys stay the same, in the same order, and each value becomes `v / total * 100` |
| `Confidence.SharesSum` | app.py:39-40 | the percentages sum to the sum of the values, divided by the total, times 100 |
| `Confidence.ConfidencesSumTo100` | app.py:39-40 | the confidences of a non-empty result sum to exactly 100 |
| `Confidence.ConfidencesInRange` | app.py:39-40 | with non-negative scores every confidence is in [0, 100] |
| `Confidence.ConfidencesKeepOrder` | app.py:39-40 | with non-negative scores a higher score never gets a lower confidence |
| `Confidence.Rank` | app.py:28-42 | the pipeline's result on one row; every keyword of a result is the vocabulary term of a column of the row |
| `Confidence.KeptFromRow` | app.py:32-36 | every key of the top-N dict is the term of a column of the row |
| `Confidence.NormalizeKeys` | app.py:40 | normalising keeps each key at its position |
| `Confidence.KeptNamed` | app.py:32-36 | every kept pair comes from the row, so its index names a term |
| `Confidence.RankEmptyRow` | app.py:36-40 | an empty row gives an empty result without dividing by zero |
| `Confidence.RankShape` | app.py:28-42 | a result is a dict with distinct keys, at most `topn` entries and at most one per row entry; for a non-empty row the confidences sum to 100 |
| `Confidence.RankPositiveRow` | app.py:28-42 | a row of positive values never reaches the division by zero |
| `Confidence.RankInRange` | app.py:28-42 | with non-negative row values every confidence is in [0, 100] |
| `Confidence.KeptDistinct` | app.py:32-36 | with distinct terms and columns, the top-N dict is the first `min(topn, len(row))` sorted pairs under their terms, and its scores never increase |
| `Confidence.RankTopTerms` | app.py:28-42 | with distinct terms and columns, the result has exactly `min(topn, len(row))` entries, naming the sorted pairs in order |
| `Confidence.RankDescending` | app.py:28-42 | with distinct terms and columns and non-negative values, the confidences never increase along the result |
| `Confidence.GetKeywordsWithConfidence` | app.py:28-42 | the pipeline returns `Rank` of its inputs: empty for an empty row, summing to 100 for a non-empty row, never a division by zero for a row of positive values |

## Left out

- The sklearn transforms `vectorizer.transform`, `tfidf_transformer.transform`, `tocoo` and `get_feature_names_out` (`app.py:31-33`). They are foreign library code whose tokenisation and weighting are not visible here. Their output is an input of the model: the row `(cols, data)` and the vocabulary `featureNames`. Distinct columns and distinct vocabulary terms appear as hypotheses of the lemmas that need them.
- Floating point. Scores are exact reals, so the sum of 100 is exact. `round(..., 2)` (`app.py:40`) is not modelled. Because of it, the app's displayed confidences may sum to slightly more or less than 100.
- The Streamlit page, the slider, the file uploader, the buttons and the tables (`app.py:8`, `app.py:53-135`). They are presentation only.
- Loading the pickled models with `joblib.load` (`app.py:11-12`). This is file I/O.
- PDF text extraction, `extract_text_from_pdf` (`app.py:44-50`). This is parsing I/O inside a library.
- The display formatting `f"{x:.2f}%"`, the pandas table and the CSV export (`app.py:122-133`). They are serialisation only.
- The guard against empty or whitespace-only text (`app.py:114`). It works on the text, which the model does not include.
- `Confidence.Normalize`: where the source divides by a zero sum and gets NaN values with a NumPy runtime warning (`{"x": 0.0}` becomes `{"x": nan}`, shown as "nan%"), the model returns `DivisionByZero` instead of a dict of NaN. NaN is a floating-point value that exact reals do not have.
- The default `topn=10` of both functions (`app.py:20`, `app.py:28`). Both call sites pass `topn` explicitly, so the default is never used.
- A `topn` below 1. With it, Python's slice `sorted_items[:topn]` would keep nothing (for 0) or drop pairs from the end (for a negative value). The only caller passes 1..20, so the model requires `topn >= 1`.
