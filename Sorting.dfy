/** `sort_coo`: the non-zero entries of a sparse TF-IDF row as
    (feature index, score) pairs, ordered by score from highest to lowest.
    Python's `sorted` is stable also with `reverse=True`, so pairs of equal
    score keep the order in which the row lists them. */
module Sorting {

  type Item = (nat, real)

  /** `zip(coo.col, coo.data)`: unzipping the pairs gives back the two
      sequences. */
  function Zip(cols: seq<nat>, data: seq<real>): (r: seq<Item>)
    requires |cols| == |data|
    ensures |r| == |cols|
    ensures forall i :: 0 <= i < |r| ==> r[i].0 == cols[i] && r[i].1 == data[i]
  {
    seq(|cols|, i requires 0 <= i < |cols| => (cols[i], data[i]))
  }

  /** Scores never increase from left to right. */
  predicate Descending(s: seq<Item>) {
    forall i, j :: 0 <= i < j < |s| ==> s[i].1 >= s[j].1
  }

  /** No feature index occurs twice, as in one row of a sparse matrix. */
  predicate DistinctIndices(s: seq<Item>) {
    forall i, j :: 0 <= i < j < |s| ==> s[i].0 != s[j].0
  }

  /** The pairs of `s` whose score is `v`, in their order in `s`. */
  function WithScore(s: seq<Item>, v: real): seq<Item> {
    if s == [] then []
    else (if s[0].1 == v then [s[0]] else []) + WithScore(s[1..], v)
  }

  /** Sorting is stable: for every score, the pairs with that score appear in
      `t` in the same order as in `s`. */
  ghost predicate SameTies(s: seq<Item>, t: seq<Item>) {
    forall v :: WithScore(t, v) == WithScore(s, v)
  }

  /** Puts `x` in front of the first pair of `t` whose score is not above
      its own, so that `x` precedes every later pair of equal score. */
  function Insert(x: Item, t: seq<Item>): (r: seq<Item>)
    ensures multiset(r) == multiset(t) + multiset{x}
  {
    if t == [] then [x]
    else if t[0].1 <= x.1 then [x] + t
    else
      assert t == [t[0]] + t[1..];
      [t[0]] + Insert(x, t[1..])
  }

  lemma {:induction false} InsertDescending(x: Item, t: seq<Item>)
    requires Descending(t)
    ensures Descending(Insert(x, t))
  {
    if t != [] && t[0].1 > x.1 {
      var r' := Insert(x, t[1..]);
      InsertDescending(x, t[1..]);
      forall k | 0 <= k < |r'| ensures t[0].1 >= r'[k].1 {
        assert r'[k] in multiset(r');
        if r'[k] != x {
          assert r'[k] in multiset(t[1..]);
          var j :| 0 <= j < |t[1..]| && t[1..][j] == r'[k];
          assert t[j + 1] == r'[k];
        }
      }
      assert Insert(x, t) == [t[0]] + r';
    }
  }

  /** Stable insertion sort by descending score. */
  function SortByScore(s: seq<Item>): (r: seq<Item>)
    ensures multiset(r) == multiset(s)
    ensures |r| == |s|
    ensures Descending(r)
  {
    if s == [] then []
    else
      assert s == [s[0]] + s[1..];
      InsertDescending(s[0], SortByScore(s[1..]));
      Insert(s[0], SortByScore(s[1..]))
  }

  lemma {:induction false} WithScoreAppend(a: seq<Item>, b: seq<Item>, v: real)
    ensures WithScore(a + b, v) == WithScore(a, v) + WithScore(b, v)
  {
    if a != [] {
      assert (a + b)[1..] == a[1..] + b;
      WithScoreAppend(a[1..], b, v);
    } else {
      assert a + b == b;
    }
  }

  lemma {:induction false} WithScoreInsert(x: Item, t: seq<Item>, v: real)
    ensures WithScore(Insert(x, t), v) == WithScore([x], v) + WithScore(t, v)
  {
    if t != [] && t[0].1 > x.1 {
      var r' := Insert(x, t[1..]);
      assert Insert(x, t) == [t[0]] + r';
      WithScoreInsert(x, t[1..], v);
      WithScoreAppend([t[0]], r', v);
      assert t == [t[0]] + t[1..];
      WithScoreAppend([t[0]], t[1..], v);
      if x.1 == v {
        assert WithScore([t[0]], v) == [];
      } else {
        assert WithScore([x], v) == [];
      }
    } else {
      WithScoreAppend([x], t, v);
    }
  }

  /** `sorted` keeps pairs of equal score in their original order. */
  lemma {:induction false} SortByScoreStable(s: seq<Item>)
    ensures SameTies(s, SortByScore(s))
  {
    if s != [] {
      SortByScoreStable(s[1..]);
      forall v ensures WithScore(SortByScore(s), v) == WithScore(s, v) {
        WithScoreInsert(s[0], SortByScore(s[1..]), v);
        WithScoreAppend([s[0]], s[1..], v);
        assert s == [s[0]] + s[1..];
      }
    }
  }

  /** Every pair that WithScore keeps comes from `s` and has score `v`. */
  lemma {:induction false} WithScoreMembers(s: seq<Item>, v: real)
    ensures forall y :: y in WithScore(s, v) <==> y in s && y.1 == v
  {
    if s != [] {
      WithScoreMembers(s[1..], v);
      assert s == [s[0]] + s[1..];
    }
  }

  /** The first pair of `s` with score `s[0].1` is `s[0]`. */
  lemma WithScoreHead(s: seq<Item>)
    requires s != []
    ensures WithScore(s, s[0].1) == [s[0]] + WithScore(s[1..], s[0].1)
  {
  }

  /** The top score of a descending sequence is at least the top score of
      any sequence with the same ties. */
  lemma HeadScoreAtLeast(a: seq<Item>, b: seq<Item>)
    requires Descending(a)
    requires SameTies(a, b)
    requires b != []
    ensures a != [] && a[0].1 >= b[0].1
  {
    WithScoreHead(b);
    assert b[0] in WithScore(b, b[0].1);
    WithScoreMembers(a, b[0].1);
    var i :| 0 <= i < |a| && a[i] == b[0];
    assert a[0].1 >= a[i].1;
  }

  /** Two descending sequences with the same ties start with the same pair. */
  lemma SameHead(a: seq<Item>, b: seq<Item>)
    requires Descending(a) && Descending(b)
    requires SameTies(a, b)
    requires a != [] && b != []
    ensures a[0] == b[0]
  {
    HeadScoreAtLeast(a, b);
    HeadScoreAtLeast(b, a);
    WithScoreHead(a);
    WithScoreHead(b);
    assert WithScore(a, a[0].1) == WithScore(b, b[0].1);
    assert WithScore(a, a[0].1)[0] == a[0];
  }

  /** Removing a common first pair keeps the ties equal. */
  lemma SameTiesTail(a: seq<Item>, b: seq<Item>)
    requires a != [] && b != [] && a[0] == b[0]
    requires SameTies(a, b)
    ensures SameTies(a[1..], b[1..])
  {
    forall v ensures WithScore(b[1..], v) == WithScore(a[1..], v) {
      WithScoreAppend([a[0]], a[1..], v);
      WithScoreAppend([b[0]], b[1..], v);
      assert a == [a[0]] + a[1..];
      assert b == [b[0]] + b[1..];
      var p := WithScore([a[0]], v);
      assert WithScore(a, v)[|p|..] == WithScore(a[1..], v);
      assert WithScore(b, v)[|p|..] == WithScore(b[1..], v);
    }
  }

  /** A descending, stable rearrangement is unique: `sorted(...,
      reverse=True)` has exactly one possible result. */
  lemma {:induction false} StableSortUnique(a: seq<Item>, b: seq<Item>)
    requires Descending(a) && Descending(b)
    requires SameTies(a, b)
    ensures a == b
  {
    if a != [] && b != [] {
      SameHead(a, b);
      SameTiesTail(a, b);
      StableSortUnique(a[1..], b[1..]);
      assert a == [a[0]] + a[1..];
      assert b == [b[0]] + b[1..];
    } else if a != [] {
      HeadScoreAtLeast(b, a);
    } else if b != [] {
      HeadScoreAtLeast(a, b);
    }
  }

  /** SortByScore is exactly the stable descending sort: a sequence is a
      stable, score-descending rearrangement of `s` if and only if it is
      SortByScore(s). */
  lemma SortByScoreCharacterized(s: seq<Item>, t: seq<Item>)
    ensures Descending(t) && SameTies(s, t) <==> t == SortByScore(s)
  {
    SortByScoreStable(s);
    if Descending(t) && SameTies(s, t) {
      StableSortUnique(t, SortByScore(s));
    }
  }

  /** Each element of a rearrangement occurs in the original. */
  lemma MembersOfPermutation(a: seq<Item>, b: seq<Item>)
    requires multiset(a) == multiset(b)
    ensures forall k :: 0 <= k < |b| ==> b[k] in a
  {
    forall k | 0 <= k < |b| ensures b[k] in a {
      assert b[k] in multiset(b);
    }
  }

  /** `sort_coo(coo)`: the row's (column, value) pairs, sorted by value,
      highest first, ties in row order. */
  function SortCoo(cols: seq<nat>, data: seq<real>): (r: seq<Item>)
    requires |cols| == |data|
    ensures multiset(r) == multiset(Zip(cols, data))
    ensures |r| == |cols|
    ensures Descending(r)
    ensures SameTies(Zip(cols, data), r)
    ensures forall k :: 0 <= k < |r| ==> r[k] in Zip(cols, data)
  {
    SortByScoreStable(Zip(cols, data));
    MembersOfPermutation(Zip(cols, data), SortByScore(Zip(cols, data)));
    SortByScore(Zip(cols, data))
  }

  /** Without repeated indices a pair occurs at most once. */
  lemma {:induction false} DistinctIndicesOnce(a: seq<Item>, x: Item)
    requires DistinctIndices(a)
    ensures multiset(a)[x] <= 1
  {
    if a != [] {
      assert a == [a[0]] + a[1..];
      DistinctIndicesOnce(a[1..], x);
      if a[0] == x {
        assert x !in a[1..] by {
          forall k | 0 <= k < |a[1..]| ensures a[1..][k] != x {
            assert a[1..][k] == a[k + 1];
          }
        }
      }
    }
  }

  /** Rearranging pairs keeps their indices distinct. */
  lemma PermutationDistinctIndices(a: seq<Item>, b: seq<Item>)
    requires multiset(a) == multiset(b)
    requires DistinctIndices(a)
    ensures DistinctIndices(b)
  {
    forall i, j | 0 <= i < j < |b| ensures b[i].0 != b[j].0 {
      if b[i] == b[j] {
        assert b == b[..j] + [b[j]] + b[j + 1..];
        assert b[i] in multiset(b[..j]);
        assert multiset(b)[b[j]] >= 2;
        DistinctIndicesOnce(a, b[j]);
      } else {
        assert b[i] in multiset(a) && b[j] in multiset(a);
        var p :| 0 <= p < |a| && a[p] == b[i];
        var q :| 0 <= q < |a| && a[q] == b[j];
        assert p != q;
      }
    }
  }
}
