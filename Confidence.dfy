/** `get_keywords_with_confidence`: rank the terms of one TF-IDF row, keep the
    top `topn`, and give each kept term its share of the kept scores as a
    percentage. The TF-IDF row (its columns and values) and the vocabulary
    come from the pretrained vectorizer and transformer; here they are
    inputs. */
module Confidence {
  import opened Dicts
  import opened Sorting
  import opened TopN

  /** The comprehension either builds the new dict or divides by a total of
      zero, which the model keeps apart as its own result. */
  datatype Result<T> = Ok(value: T) | DivisionByZero

  /** Each value of `d` as a percentage of `total`, keys and order unchanged. */
  function Shares(d: Dict, total: real): (r: Dict)
    requires total != 0.0
    ensures Keys(r) == Keys(d)
    ensures forall i :: 0 <= i < |r| ==> r[i].1 * total == d[i].1 * 100.0
  {
    seq(|d|, i requires 0 <= i < |d| => (d[i].0, d[i].1 / total * 100.0))
  }

  /** `{k: (v / total_score) * 100 for k, v in keywords.items()}` with
      `total_score = sum(keywords.values())`. The division is only reached
      when the dict has an entry, so an empty dict gives an empty dict. */
  function Normalize(keywords: Dict): (r: Result<Dict>)
    ensures r.DivisionByZero? <==> keywords != [] && SumValues(keywords) == 0.0
    ensures keywords == [] ==> r == Ok([])
    ensures r.Ok? ==> Keys(r.value) == Keys(keywords)
    ensures r.Ok? ==> forall i :: 0 <= i < |keywords| ==>
              r.value[i].1 == keywords[i].1 / SumValues(keywords) * 100.0
  {
    if keywords == [] then Ok([])
    else
      var total := SumValues(keywords);
      if total == 0.0 then DivisionByZero else Ok(Shares(keywords, total))
  }

  /** Dividing by a positive total keeps the order of two scores. */
  lemma DivMonotone(a: real, b: real, t: real)
    requires a <= b && t > 0.0
    ensures a / t <= b / t
  {
  }

  lemma ShareBound(v: real, total: real)
    requires 0.0 <= v <= total && total > 0.0
    ensures 0.0 <= v / total * 100.0 <= 100.0
  {
  }

  lemma {:induction false} SharesSum(d: Dict, total: real)
    requires total != 0.0
    ensures SumValues(Shares(d, total)) == SumValues(d) / total * 100.0
  {
    if d != [] {
      SharesSum(d[1..], total);
      assert Shares(d, total)[1..] == Shares(d[1..], total);
      ShareAdd(d[0].1, SumValues(d[1..]), total);
    }
  }

  /** Percentages of the same total add up like the values. */
  lemma ShareAdd(a: real, b: real, total: real)
    requires total != 0.0
    ensures a / total * 100.0 + b / total * 100.0 == (a + b) / total * 100.0
  {
  }

  lemma ShareOfTotal(total: real)
    requires total != 0.0
    ensures total / total * 100.0 == 100.0
  {
  }

  /** The confidences of a non-empty result add up to exactly 100. */
  lemma ConfidencesSumTo100(keywords: Dict)
    requires Normalize(keywords).Ok?
    requires keywords != []
    ensures SumValues(Normalize(keywords).value) == 100.0
  {
    var total := SumValues(keywords);
    SharesSum(keywords, total);
    ShareOfTotal(total);
  }

  /** With non-negative scores every confidence is a percentage in [0, 100]. */
  lemma ConfidencesInRange(keywords: Dict)
    requires NonNegative(keywords)
    requires Normalize(keywords).Ok?
    ensures forall i :: 0 <= i < |Normalize(keywords).value| ==>
              0.0 <= Normalize(keywords).value[i].1 <= 100.0
  {
    SumValuesNonNegative(keywords);
    var total := SumValues(keywords);
    forall i | 0 <= i < |keywords| ensures 0.0 <= keywords[i].1 / total * 100.0 <= 100.0 {
      ShareBound(keywords[i].1, total);
    }
  }

  /** With non-negative scores normalising keeps the ranking: a higher score
      never gets a lower confidence. */
  lemma ConfidencesKeepOrder(keywords: Dict)
    requires NonNegative(keywords)
    requires Normalize(keywords).Ok?
    ensures forall i, j :: 0 <= i < |keywords| && 0 <= j < |keywords| && keywords[i].1 >= keywords[j].1
              ==> Normalize(keywords).value[i].1 >= Normalize(keywords).value[j].1
  {
    SumValuesNonNegative(keywords);
    var total := SumValues(keywords);
    forall i, j | 0 <= i < |keywords| && 0 <= j < |keywords| && keywords[i].1 >= keywords[j].1
      ensures keywords[i].1 / total * 100.0 >= keywords[j].1 / total * 100.0
    {
      assert total > 0.0;
      DivMonotone(keywords[j].1, keywords[i].1, total);
    }
  }

  /** Vocabulary entries are distinct terms. */
  predicate UniqueTerms(names: seq<string>) {
    forall i, j :: 0 <= i < j < |names| ==> names[i] != names[j]
  }

  /** The result of the pipeline on one row, as a function of the row, the
      vocabulary and `topn`. */
  function Rank(cols: seq<nat>, data: seq<real>, featureNames: seq<string>, topn: int): (r: Result<Dict>)
    requires topn >= 1
    requires |cols| == |data|
    requires forall i :: 0 <= i < |cols| ==> cols[i] < |featureNames|
    ensures r.Ok? ==> TermsOfRow(r.value, cols, featureNames)
  {
    KeptNamed(cols, data, featureNames, topn);
    var keywords := Store(featureNames, Take(SortCoo(cols, data), topn));
    KeptFromRow(cols, data, featureNames, topn);
    NormalizeKeys(keywords);
    Normalize(keywords)
  }

  /** Every key of `d` is the term of a column of the row. */
  predicate TermsOfRow(d: Dict, cols: seq<nat>, featureNames: seq<string>)
    requires forall i :: 0 <= i < |cols| ==> cols[i] < |featureNames|
  {
    forall i :: 0 <= i < |d| ==> exists j :: 0 <= j < |cols| && d[i].0 == featureNames[cols[j]]
  }

  /** Every key of the top-N dict is the term of a column of the row. */
  lemma KeptFromRow(cols: seq<nat>, data: seq<real>, featureNames: seq<string>, topn: int)
    requires topn >= 1
    requires |cols| == |data|
    requires forall i :: 0 <= i < |cols| ==> cols[i] < |featureNames|
    ensures NamesCover(featureNames, Take(SortCoo(cols, data), topn))
    ensures TermsOfRow(Store(featureNames, Take(SortCoo(cols, data), topn)), cols, featureNames)
  {
    KeptNamed(cols, data, featureNames, topn);
    var kept := Take(SortCoo(cols, data), topn);
    var d := Store(featureNames, kept);
    forall i | 0 <= i < |d| ensures exists j :: 0 <= j < |cols| && d[i].0 == featureNames[cols[j]] {
      assert Keys(d)[i] == d[i].0;
      StoreKeys(featureNames, kept, d[i].0);
      var m :| 0 <= m < |kept| && featureNames[kept[m].0] == d[i].0;
      ColumnOfPair(cols, data, kept[m]);
    }
  }

  /** A pair of the row carries one of the row's columns. */
  lemma ColumnOfPair(cols: seq<nat>, data: seq<real>, p: Item)
    requires |cols| == |data|
    requires p in Zip(cols, data)
    ensures exists j :: 0 <= j < |cols| && p.0 == cols[j]
  {
    var j :| 0 <= j < |cols| && Zip(cols, data)[j] == p;
  }

  /** The keys of a normalised dict, position by position. */
  lemma NormalizeKeys(keywords: Dict)
    ensures var r := Normalize(keywords);
      r.Ok? ==> |r.value| == |keywords| && forall i :: 0 <= i < |r.value| ==> r.value[i].0 == keywords[i].0
  {
    var r := Normalize(keywords);
    if r.Ok? {
      forall i | 0 <= i < |r.value| ensures r.value[i].0 == keywords[i].0 {
        assert Keys(r.value)[i] == Keys(keywords)[i];
      }
    }
  }

  /** Every kept pair comes from the row, so its index names a term. */
  lemma KeptNamed(cols: seq<nat>, data: seq<real>, featureNames: seq<string>, topn: int)
    requires topn >= 1
    requires |cols| == |data|
    requires forall i :: 0 <= i < |cols| ==> cols[i] < |featureNames|
    ensures NamesCover(featureNames, Take(SortCoo(cols, data), topn))
  {
  }

  /** An empty row gives an empty result: no division takes place. */
  lemma RankEmptyRow(data: seq<real>, featureNames: seq<string>, topn: int)
    requires topn >= 1
    requires data == []
    ensures Rank([], data, featureNames, topn) == Ok([])
  {
  }

  /** The result is a well-formed dict with at most `topn` entries, at most
      one per pair of the row; a non-empty one sums to 100. */
  lemma RankShape(cols: seq<nat>, data: seq<real>, featureNames: seq<string>, topn: int)
    requires topn >= 1
    requires |cols| == |data|
    requires forall i :: 0 <= i < |cols| ==> cols[i] < |featureNames|
    ensures var r := Rank(cols, data, featureNames, topn);
      r.Ok? ==> && DistinctKeys(r.value) && |r.value| <= topn && |r.value| <= |cols|
                && (cols != [] ==> SumValues(r.value) == 100.0)
  {
    KeptNamed(cols, data, featureNames, topn);
    var keywords := Store(featureNames, Take(SortCoo(cols, data), topn));
    if Normalize(keywords).Ok? && cols != [] {
      ConfidencesSumTo100(keywords);
    }
    if Normalize(keywords).Ok? {
      assert Keys(Normalize(keywords).value) == Keys(keywords);
      forall i, j | 0 <= i < j < |Normalize(keywords).value|
        ensures Normalize(keywords).value[i].0 != Normalize(keywords).value[j].0
      {
        assert Keys(keywords)[i] == keywords[i].0;
        assert Keys(keywords)[j] == keywords[j].0;
      }
    }
  }

  /** A row whose values are all positive, as TF-IDF weights of the terms
      that occur are, never reaches the division by zero. */
  lemma RankPositiveRow(cols: seq<nat>, data: seq<real>, featureNames: seq<string>, topn: int)
    requires topn >= 1
    requires |cols| == |data|
    requires forall i :: 0 <= i < |cols| ==> cols[i] < |featureNames|
    requires forall i :: 0 <= i < |data| ==> data[i] > 0.0
    ensures Rank(cols, data, featureNames, topn).Ok?
  {
    KeptNamed(cols, data, featureNames, topn);
    var kept := Take(SortCoo(cols, data), topn);
    forall k | 0 <= k < |kept| ensures kept[k].1 > 0.0 {
      assert kept[k] in Zip(cols, data);
    }
  }

  /** With non-negative row values every confidence lies in [0, 100]. */
  lemma RankInRange(cols: seq<nat>, data: seq<real>, featureNames: seq<string>, topn: int)
    requires topn >= 1
    requires |cols| == |data|
    requires forall i :: 0 <= i < |cols| ==> cols[i] < |featureNames|
    requires forall i :: 0 <= i < |data| ==> data[i] >= 0.0
    ensures var r := Rank(cols, data, featureNames, topn);
      r.Ok? ==> forall i :: 0 <= i < |r.value| ==> 0.0 <= r.value[i].1 <= 100.0
  {
    KeptNamed(cols, data, featureNames, topn);
    var kept := Take(SortCoo(cols, data), topn);
    forall k | 0 <= k < |kept| ensures kept[k].1 >= 0.0 {
      assert kept[k] in Zip(cols, data);
    }
    var keywords := Store(featureNames, kept);
    if Normalize(keywords).Ok? {
      ConfidencesInRange(keywords);
    }
  }

  /** With a vocabulary of distinct terms and a row of distinct columns no
      entry is overwritten: the dict `extract_topn_from_vector` builds is the
      first min(topn, len(row)) pairs of `sort_coo`, each under its term. */
  lemma KeptDistinct(cols: seq<nat>, data: seq<real>, featureNames: seq<string>, topn: int)
    requires topn >= 1
    requires |cols| == |data|
    requires forall i :: 0 <= i < |cols| ==> cols[i] < |featureNames|
    requires UniqueTerms(featureNames)
    requires DistinctIndices(Zip(cols, data))
    ensures NamesCover(featureNames, Take(SortCoo(cols, data), topn))
    ensures var d := Store(featureNames, Take(SortCoo(cols, data), topn));
      && |d| == (if topn < |cols| then topn else |cols|)
      && (forall i :: 0 <= i < |d| ==> d[i] == (featureNames[SortCoo(cols, data)[i].0], SortCoo(cols, data)[i].1))
      && (forall i, j :: 0 <= i < j < |d| ==> d[i].1 >= d[j].1)
  {
    KeptNamed(cols, data, featureNames, topn);
    var sortedItems := SortCoo(cols, data);
    var kept := Take(sortedItems, topn);
    PermutationDistinctIndices(Zip(cols, data), sortedItems);
    assert DistinctIndices(kept);
    DistinctIndicesDistinctTerms(featureNames, kept);
    TopNOfSorted(featureNames, sortedItems, topn);
  }

  /** With a vocabulary of distinct terms and a row of distinct columns, the
      result names exactly the first min(topn, len(row)) pairs of `sort_coo`,
      in that order. */
  lemma RankTopTerms(cols: seq<nat>, data: seq<real>, featureNames: seq<string>, topn: int)
    requires topn >= 1
    requires |cols| == |data|
    requires forall i :: 0 <= i < |cols| ==> cols[i] < |featureNames|
    requires UniqueTerms(featureNames)
    requires DistinctIndices(Zip(cols, data))
    ensures var r := Rank(cols, data, featureNames, topn);
      r.Ok? ==>
        && |r.value| == (if topn < |cols| then topn else |cols|)
        && (forall i :: 0 <= i < |r.value| ==> r.value[i].0 == featureNames[SortCoo(cols, data)[i].0])
  {
    KeptDistinct(cols, data, featureNames, topn);
    var keywords := Store(featureNames, Take(SortCoo(cols, data), topn));
    if Normalize(keywords).Ok? {
      forall i | 0 <= i < |keywords| ensures Normalize(keywords).value[i].0 == keywords[i].0 {
        assert Keys(Normalize(keywords).value)[i] == Keys(keywords)[i];
      }
    }
  }

  /** With distinct terms and columns and non-negative row values, the
      confidences never increase along the result. */
  lemma RankDescending(cols: seq<nat>, data: seq<real>, featureNames: seq<string>, topn: int)
    requires topn >= 1
    requires |cols| == |data|
    requires forall i :: 0 <= i < |cols| ==> cols[i] < |featureNames|
    requires UniqueTerms(featureNames)
    requires DistinctIndices(Zip(cols, data))
    requires forall i :: 0 <= i < |data| ==> data[i] >= 0.0
    ensures var r := Rank(cols, data, featureNames, topn);
      r.Ok? ==> forall i, j :: 0 <= i < j < |r.value| ==> r.value[i].1 >= r.value[j].1
  {
    KeptDistinct(cols, data, featureNames, topn);
    var kept := Take(SortCoo(cols, data), topn);
    var keywords := Store(featureNames, kept);
    if Normalize(keywords).Ok? {
      forall k | 0 <= k < |kept| ensures kept[k].1 >= 0.0 {
        assert kept[k] in Zip(cols, data);
      }
      ConfidencesKeepOrder(keywords);
    }
  }

  /** `get_keywords_with_confidence(text, vectorizer, tfidf_transformer,
      topn)` once the transformers have turned `text` into the row
      (`cols[i]`, `data[i]`) and the vocabulary `featureNames`. */
  method GetKeywordsWithConfidence(cols: seq<nat>, data: seq<real>, featureNames: seq<string>, topn: int)
    returns (r: Result<Dict>)
    requires topn >= 1
    requires |cols| == |data|
    requires forall i :: 0 <= i < |cols| ==> cols[i] < |featureNames|
    ensures r == Rank(cols, data, featureNames, topn)
    ensures cols == [] ==> r == Ok([])
    ensures r.Ok? && cols != [] ==> SumValues(r.value) == 100.0
    ensures (forall i :: 0 <= i < |data| ==> data[i] > 0.0) ==> r.Ok?
  {
    var sortedItems := SortCoo(cols, data);
    KeptNamed(cols, data, featureNames, topn);
    var keywords := ExtractTopN(featureNames, sortedItems, topn);
    r := Normalize(keywords);
    RankShape(cols, data, featureNames, topn);
    if cols == [] {
      RankEmptyRow(data, featureNames, topn);
    }
    if forall i :: 0 <= i < |data| ==> data[i] > 0.0 {
      RankPositiveRow(cols, data, featureNames, topn);
    }
  }
}
