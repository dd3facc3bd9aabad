/** The result dictionaries of the ranking pipeline: a dict from term to score
    that remembers the order in which its keys were first inserted, as a
    sequence of (key, value) pairs. */
module Dicts {

  datatype Option<T> = None | Some(value: T)

  type Dict = seq<(string, real)>

  /** The keys of a dict, in insertion order. */
  function Keys(d: Dict): seq<string> {
    seq(|d|, i requires 0 <= i < |d| => d[i].0)
  }

  /** A well-formed dict holds each key at most once. */
  predicate DistinctKeys(d: Dict) {
    forall i, j :: 0 <= i < j < |d| ==> d[i].0 != d[j].0
  }

  /** Position of key `k` in `d`, if it is a key (the first one, should `d`
      not be well formed). */
  function Find(d: Dict, k: string): (r: Option<nat>)
    ensures r.Some? ==> r.value < |d| && d[r.value].0 == k
    ensures r.Some? ==> forall j :: 0 <= j < r.value ==> d[j].0 != k
    ensures r.None? <==> k !in Keys(d)
  {
    if d == [] then None
    else if d[0].0 == k then
      assert Keys(d)[0] == k;
      Some(0)
    else
      var r := Find(d[1..], k);
      assert Keys(d) == [d[0].0] + Keys(d[1..]);
      if r.None? then None else Some(r.value + 1)
  }

  /** `d[k]`, or None when `k` is not a key. */
  function Lookup(d: Dict, k: string): Option<real> {
    match Find(d, k)
    case Some(i) => Some(d[i].1)
    case None => None
  }

  /** `d[k]` has a value exactly when `k` is a key of `d`. */
  lemma LookupFound(d: Dict, k: string)
    ensures Lookup(d, k).Some? <==> k in Keys(d)
  {
  }

  /** Find returns the first position that holds `k`. */
  lemma FindFirst(d: Dict, k: string, i: nat)
    requires i < |d| && d[i].0 == k
    requires forall j :: 0 <= j < i ==> d[j].0 != k
    ensures Find(d, k) == Some(i)
  {
    assert Keys(d)[i] == k;
    var r := Find(d, k);
    assert !(r.value < i) && !(i < r.value);
  }

  /** Overwriting the value at the position of an existing key. */
  lemma ReplaceAt(d: Dict, k: string, v: real, i: nat)
    requires Find(d, k) == Some(i)
    ensures Keys(d[i := (k, v)]) == Keys(d)
    ensures Lookup(d[i := (k, v)], k) == Some(v)
    ensures forall k' :: k' != k ==> Lookup(d[i := (k, v)], k') == Lookup(d, k')
  {
    var r := d[i := (k, v)];
    assert Keys(r) == Keys(d);
    FindFirst(r, k, i);
    forall k' | k' != k ensures Lookup(r, k') == Lookup(d, k') {
      var f := Find(d, k');
      if f.Some? {
        FindFirst(r, k', f.value);
      } else {
        assert Find(r, k') == None;
      }
    }
  }

  /** Appending a key that is not yet in the dict. */
  lemma AppendNew(d: Dict, k: string, v: real)
    requires k !in Keys(d)
    ensures forall j :: 0 <= j < |d| ==> d[j].0 != k
    ensures Keys(d + [(k, v)]) == Keys(d) + [k]
    ensures Lookup(d + [(k, v)], k) == Some(v)
    ensures forall k' :: k' != k ==> Lookup(d + [(k, v)], k') == Lookup(d, k')
  {
    var r := d + [(k, v)];
    assert Keys(r) == Keys(d) + [k];
    forall j | 0 <= j < |d| ensures d[j].0 != k {
      assert Keys(d)[j] == d[j].0;
    }
    FindFirst(r, k, |d|);
    forall k' | k' != k ensures Lookup(r, k') == Lookup(d, k') {
      var f := Find(d, k');
      if f.Some? {
        FindFirst(r, k', f.value);
      } else {
        assert k' !in Keys(r);
      }
    }
  }

  /** `d[k] = v`: an existing key keeps its place and gets the new value; a new
      key is appended at the end. */
  function Assign(d: Dict, k: string, v: real): (r: Dict)
    ensures k in Keys(d) ==> Keys(r) == Keys(d)
    ensures k !in Keys(d) ==> r == d + [(k, v)]
    ensures DistinctKeys(d) ==> DistinctKeys(r)
    ensures NonNegative(d) && v >= 0.0 ==> NonNegative(r)
    ensures Positive(d) && v > 0.0 ==> Positive(r)
  {
    var f := Find(d, k);
    if f.Some? then
      assert Keys(d[f.value := (k, v)]) == Keys(d);
      d[f.value := (k, v)]
    else
      AppendNew(d, k, v);
      d + [(k, v)]
  }

  /** After `d[k] = v`, `k` maps to `v`, every other key keeps its value, and
      the keys are those of `d` together with `k`. */
  lemma AssignLookup(d: Dict, k: string, v: real)
    ensures Lookup(Assign(d, k, v), k) == Some(v)
    ensures forall k' :: k' != k ==> Lookup(Assign(d, k, v), k') == Lookup(d, k')
    ensures forall k' :: k' in Keys(Assign(d, k, v)) <==> k' in Keys(d) || k' == k
  {
    var f := Find(d, k);
    if f.Some? {
      ReplaceAt(d, k, v, f.value);
    } else {
      AppendNew(d, k, v);
    }
  }

  /** `sum(d.values())`: zero for an empty dict, non-negative over
      non-negative values, positive over positive values. */
  function SumValues(d: Dict): (r: real)
    ensures d == [] ==> r == 0.0
    ensures NonNegative(d) ==> r >= 0.0
    ensures Positive(d) && d != [] ==> r > 0.0
  {
    if d == [] then 0.0 else d[0].1 + SumValues(d[1..])
  }

  /** Every value of `d` is at least zero. */
  predicate NonNegative(d: Dict) {
    forall i :: 0 <= i < |d| ==> d[i].1 >= 0.0
  }

  /** Every value of `d` is above zero. */
  predicate Positive(d: Dict) {
    forall i :: 0 <= i < |d| ==> d[i].1 > 0.0
  }

  lemma {:induction false} SumValuesNonNegative(d: Dict)
    requires NonNegative(d)
    ensures SumValues(d) >= 0.0
    ensures forall i :: 0 <= i < |d| ==> d[i].1 <= SumValues(d)
  {
    if d != [] {
      SumValuesNonNegative(d[1..]);
      forall i | 1 <= i < |d| ensures d[i].1 <= SumValues(d) {
        assert d[i] == d[1..][i - 1];
      }
    }
  }
}
