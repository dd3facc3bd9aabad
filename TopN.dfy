/** `extract_topn_from_vector`: keep the first `topn` sorted pairs and store
    each score in a dict under the term its feature index names. */
module TopN {
  import opened Dicts
  import opened Sorting

  /** `items[:n]` for a positive `n`: the first `n` pairs, or all of them
      when there are fewer. */
  function Take(items: seq<Item>, n: int): (r: seq<Item>)
    requires n >= 1
    ensures |r| == if n < |items| then n else |items|
    ensures r == items[..|r|]
  {
    if n < |items| then items[..n] else items
  }

  /** Every feature index in `items` names a term. */
  predicate NamesCover(names: seq<string>, items: seq<Item>) {
    forall i :: 0 <= i < |items| ==> items[i].0 < |names|
  }

  /** No two pairs of `items` name the same term. */
  predicate DistinctTerms(names: seq<string>, items: seq<Item>)
    requires NamesCover(names, items)
  {
    forall i, j :: 0 <= i < j < |items| ==> names[items[i].0] != names[items[j].0]
  }

  /** `items` as (term, score) entries, one per pair, in the same order. */
  function Named(names: seq<string>, items: seq<Item>): Dict
    requires NamesCover(names, items)
  {
    seq(|items|, i requires 0 <= i < |items| => (names[items[i].0], items[i].1))
  }

  /** The dict left by running `results[names[idx]] = score` for the pairs of
      `items` in order, starting from `{}`. */
  function Store(names: seq<string>, items: seq<Item>): (d: Dict)
    requires NamesCover(names, items)
    ensures DistinctKeys(d)
    ensures |d| <= |items|
    ensures items != [] ==> d != []
    ensures (forall i :: 0 <= i < |items| ==> items[i].1 >= 0.0) ==> NonNegative(d)
    ensures (forall i :: 0 <= i < |items| ==> items[i].1 > 0.0) ==> Positive(d)
  {
    if items == [] then []
    else
      var n := |items| - 1;
      var d' := Store(names, items[..n]);
      assert forall i :: 0 <= i < n ==> items[..n][i] == items[i];
      Assign(d', names[items[n].0], items[n].1)
  }

  /** The keys of the dict are exactly the terms of the pairs. */
  lemma {:induction false} StoreKeys(names: seq<string>, items: seq<Item>, k: string)
    requires NamesCover(names, items)
    ensures k in Keys(Store(names, items)) <==> exists i :: 0 <= i < |items| && names[items[i].0] == k
  {
    if items != [] {
      var n := |items| - 1;
      var front := items[..n];
      assert forall i :: 0 <= i < n ==> front[i] == items[i];
      StoreKeys(names, front, k);
      AssignLookup(Store(names, front), names[items[n].0], items[n].1);
      if k == names[items[n].0] {
        assert 0 <= n < |items| && names[items[n].0] == k;
      }
    }
  }

  /** The last pair's term is not among the terms of the pairs before it. */
  lemma LastTermFresh(names: seq<string>, items: seq<Item>)
    requires NamesCover(names, items)
    requires DistinctTerms(names, items)
    requires items != []
    ensures names[items[|items| - 1].0] !in Keys(Named(names, items[..|items| - 1]))
  {
  }

  lemma NamedSnoc(names: seq<string>, items: seq<Item>)
    requires NamesCover(names, items)
    requires items != []
    ensures var n := |items| - 1;
      Named(names, items) == Named(names, items[..n]) + [(names[items[n].0], items[n].1)]
  {
  }

  /** When the terms are distinct no entry is overwritten: the dict holds
      exactly one entry per pair, in the order of the pairs. */
  lemma {:induction false} StoreFresh(names: seq<string>, items: seq<Item>)
    requires NamesCover(names, items)
    requires DistinctTerms(names, items)
    ensures Store(names, items) == Named(names, items)
  {
    if items != [] {
      var n := |items| - 1;
      var front := items[..n];
      StoreFresh(names, front);
      LastTermFresh(names, items);
      NamedSnoc(names, items);
    }
  }

  /** Distinct feature indices over a vocabulary without repeated terms give
      distinct terms. */
  lemma DistinctIndicesDistinctTerms(names: seq<string>, items: seq<Item>)
    requires NamesCover(names, items)
    requires forall i, j :: 0 <= i < j < |names| ==> names[i] != names[j]
    requires forall i, j :: 0 <= i < j < |items| ==> items[i].0 != items[j].0
    ensures DistinctTerms(names, items)
  {
  }

  /** `extract_topn_from_vector(feature_names, sorted_items, topn)`. */
  method ExtractTopN(featureNames: seq<string>, sortedItems: seq<Item>, topn: int)
    returns (results: Dict)
    requires topn >= 1
    requires NamesCover(featureNames, Take(sortedItems, topn))
    ensures results == Store(featureNames, Take(sortedItems, topn))
    ensures DistinctTerms(featureNames, Take(sortedItems, topn))
            ==> results == Named(featureNames, Take(sortedItems, topn))
  {
    var items := Take(sortedItems, topn);
    results := [];
    for i := 0 to |items|
      invariant results == Store(featureNames, items[..i])
    {
      assert items[..i + 1][..i] == items[..i];
      var (idx, score) := items[i];
      results := Assign(results, featureNames[idx], score);
    }
    assert items[..|items|] == items;
    if DistinctTerms(featureNames, items) {
      StoreFresh(featureNames, items);
    }
  }

  /** With distinct terms, the top-N dict of a descending vector has exactly
      min(topn, len(sorted_items)) entries, the i-th one naming the i-th pair
      and carrying its score, so the kept scores never increase. */
  lemma TopNOfSorted(names: seq<string>, sortedItems: seq<Item>, topn: int)
    requires topn >= 1
    requires NamesCover(names, Take(sortedItems, topn))
    requires DistinctTerms(names, Take(sortedItems, topn))
    requires Descending(sortedItems)
    ensures var d := Store(names, Take(sortedItems, topn));
      && |d| == (if topn < |sortedItems| then topn else |sortedItems|)
      && (forall i :: 0 <= i < |d| ==> d[i] == (names[sortedItems[i].0], sortedItems[i].1))
      && (forall i, j :: 0 <= i < j < |d| ==> d[i].1 >= d[j].1)
  {
    StoreFresh(names, Take(sortedItems, topn));
  }
}
