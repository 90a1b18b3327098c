/**
 * Ordering and slicing of score vectors, shared by both similarity engines
 * and by the hybrid ranker: a stable descending sort of (key, score) pairs
 * (Python's `sorted(..., key=score, reverse=True)` and `list.sort`), an
 * argsort, Python slicing, `dict(zip(...))`, and an ascending listing of a
 * set of ids.
 */
module Ranking {

  function Min(a: int, b: int): int
  {
    if a <= b then a else b
  }

  /** Scores never increase along `xs`. */
  ghost predicate NonIncreasing<K>(xs: seq<(K, real)>)
  {
    forall i, j :: 0 <= i < j < |xs| ==> xs[i].1 >= xs[j].1
  }

  /** Putting `h` in front keeps the scores non-increasing when `h` scores at least as high as all of `t`. */
  lemma ConsNonIncreasing<K>(h: (K, real), t: seq<(K, real)>)
    requires NonIncreasing(t)
    requires forall y :: y in t ==> y.1 <= h.1
    ensures NonIncreasing([h] + t)
  {
    var r := [h] + t;
    forall i, j | 0 <= i < j < |r|
      ensures r[i].1 >= r[j].1
    {
      assert r[j] == t[j - 1];
      if i > 0 {
        assert r[i] == t[i - 1];
      } else {
        assert r[j] in t;
      }
    }
  }

  /** In a non-increasing sequence nothing scores above the first element. */
  lemma FirstIsHighest<K>(xs: seq<(K, real)>)
    requires NonIncreasing(xs)
    ensures xs != [] ==> forall y :: y in xs ==> y.1 <= xs[0].1
  {
    forall y | y in xs
      ensures y.1 <= xs[0].1
    {
      var j :| 0 <= j < |xs| && xs[j] == y;
      if j > 0 {
        assert xs[0].1 >= xs[j].1;
      }
    }
  }

  /** Every element of `rest` is `x` or an element of `xs`, so none scores above `bound`. */
  lemma BoundedByMembers<K>(rest: seq<(K, real)>, x: (K, real), xs: seq<(K, real)>, bound: real)
    requires multiset(rest) == multiset(xs) + multiset{x}
    requires x.1 <= bound && forall y :: y in xs ==> y.1 <= bound
    ensures forall y :: y in rest ==> y.1 <= bound
  {
    forall y | y in rest
      ensures y.1 <= bound
    {
      assert y in multiset(rest);
      if y != x {
        assert y in multiset(xs);
      }
    }
  }

  /**
   * Inserts `x` before the first element whose score is not larger, so that
   * `x` precedes the elements of `xs` that tie with it.
   */
  function InsertDesc<K>(x: (K, real), xs: seq<(K, real)>): (r: seq<(K, real)>)
    requires NonIncreasing(xs)
    ensures multiset(r) == multiset(xs) + multiset{x}
    ensures NonIncreasing(r)
  {
    if xs == [] || x.1 >= xs[0].1 then
      FirstIsHighest(xs);
      ConsNonIncreasing(x, xs);
      [x] + xs
    else
      var rest := InsertDesc(x, xs[1..]);
      assert xs == [xs[0]] + xs[1..];
      FirstIsHighest(xs);
      BoundedByMembers(rest, x, xs[1..], xs[0].1);
      ConsNonIncreasing(xs[0], rest);
      [xs[0]] + rest
  }

  /**
   * Stable sort by descending score: an insertion sort that puts each
   * element in front of the later elements that tie with it.
   */
  function SortDesc<K>(xs: seq<(K, real)>): (r: seq<(K, real)>)
    ensures multiset(r) == multiset(xs)
    ensures |r| == |xs|
    ensures NonIncreasing(r)
  {
    if xs == [] then
      []
    else
      assert xs == [xs[0]] + xs[1..];
      InsertDesc(xs[0], SortDesc(xs[1..]))
  }

  /** Equal scores appear in increasing key order. */
  ghost predicate TiesByKey(xs: seq<(nat, real)>)
  {
    forall i, j :: 0 <= i < j < |xs| && xs[i].1 == xs[j].1 ==> xs[i].0 < xs[j].0
  }

  /** Keys strictly increase along `xs`. */
  ghost predicate KeysIncreasing(xs: seq<(nat, real)>)
  {
    forall i, j :: 0 <= i < j < |xs| ==> xs[i].0 < xs[j].0
  }

  lemma ConsTiesByKey(h: (nat, real), t: seq<(nat, real)>)
    requires TiesByKey(t)
    requires forall y :: y in t && y.1 == h.1 ==> h.0 < y.0
    ensures TiesByKey([h] + t)
  {
    var r := [h] + t;
    forall i, j | 0 <= i < j < |r| && r[i].1 == r[j].1
      ensures r[i].0 < r[j].0
    {
      assert r[j] == t[j - 1];
      if i > 0 {
        assert r[i] == t[i - 1];
      } else {
        assert r[j] in t;
      }
    }
  }

  lemma InsertKeepsTiesByKey(x: (nat, real), xs: seq<(nat, real)>)
    requires NonIncreasing(xs) && TiesByKey(xs)
    requires forall y :: y in xs ==> x.0 < y.0
    ensures TiesByKey(InsertDesc(x, xs))
  {
    if xs == [] || x.1 >= xs[0].1 {
      ConsTiesByKey(x, xs);
    } else {
      InsertKeepsTiesByKey(x, xs[1..]);
      var rest := InsertDesc(x, xs[1..]);
      forall y | y in rest && y.1 == xs[0].1
        ensures xs[0].0 < y.0
      {
        assert y in multiset(rest);
        assert y != x;
        assert y in xs[1..];
        var j :| 0 <= j < |xs[1..]| && xs[1..][j] == y;
        assert xs[1 + j] == y;
      }
      ConsTiesByKey(xs[0], rest);
    }
  }

  /** `SortDesc` is stable: ties keep the order they had in the input. */
  lemma {:induction false} SortDescStable(xs: seq<(nat, real)>)
    requires KeysIncreasing(xs)
    ensures TiesByKey(SortDesc(xs))
  {
    if xs != [] {
      SortDescStable(xs[1..]);
      var sorted := SortDesc(xs[1..]);
      forall y | y in sorted
        ensures xs[0].0 < y.0
      {
        assert y in multiset(xs[1..]);
      }
      InsertKeepsTiesByKey(xs[0], sorted);
    }
  }

  /** Python's `list(enumerate(row))`. */
  function Enumerate(row: seq<real>): (ps: seq<(nat, real)>)
    ensures |ps| == |row|
    ensures forall i :: 0 <= i < |row| ==> ps[i] == (i, row[i])
  {
    seq(|row|, i requires 0 <= i < |row| => (i, row[i]))
  }

  function Keys<K>(ps: seq<(K, real)>): (ks: seq<K>)
    ensures |ks| == |ps|
    ensures forall i :: 0 <= i < |ps| ==> ks[i] == ps[i].0
  {
    seq(|ps|, i requires 0 <= i < |ps| => ps[i].0)
  }

  /** `order` lists every position of `row` exactly once. */
  ghost predicate IsOrdering(row: seq<real>, order: seq<nat>)
  {
    |order| == |row|
    && (forall k :: 0 <= k < |order| ==> order[k] < |row|)
    && (forall p :: 0 <= p < |row| ==> p in order)
    && (forall i, j :: 0 <= i < j < |order| ==> order[i] != order[j])
  }

  /** `order` visits the positions of `row` from the highest score down. */
  ghost predicate IsDescendingOrder(row: seq<real>, order: seq<nat>)
  {
    IsOrdering(row, order)
    && forall i, j :: 0 <= i < j < |order| ==> row[order[i]] >= row[order[j]]
  }

  /** `order` visits the positions of `row` from the lowest score up. */
  ghost predicate IsAscendingOrder(row: seq<real>, order: seq<nat>)
  {
    IsOrdering(row, order)
    && forall i, j :: 0 <= i < j < |order| ==> row[order[i]] <= row[order[j]]
  }

  /**
   * The positions of `row` by descending score, equal scores in position
   * order: `[i for i, _ in sorted(enumerate(row), key=lambda x: x[1], reverse=True)]`.
   */
  function DescendingOrder(row: seq<real>): (order: seq<nat>)
    ensures IsDescendingOrder(row, order)
    ensures forall i, j :: 0 <= i < j < |order| && row[order[i]] == row[order[j]] ==> order[i] < order[j]
  {
    var order := Keys(SortDesc(Enumerate(row)));
    SortedEnumeration(row, order);
    order
  }

  /** Along a strictly increasing list of naturals, values grow at least as fast as positions. */
  lemma IncreasingGap(xs: seq<nat>, i: nat, j: nat)
    requires forall a, b :: 0 <= a < b < |xs| ==> xs[a] < xs[b]
    requires i <= j < |xs|
    ensures xs[j] - xs[i] >= j - i
    decreases j - i
  {
    if i < j {
      IncreasingGap(xs, i + 1, j);
    }
  }

  /**
   * When every position scores the same, the stable descending order is
   * the catalog order itself.
   */
  lemma ConstantRowOrder(row: seq<real>)
    requires forall p :: 0 <= p < |row| ==> row[p] == row[0]
    ensures forall i :: 0 <= i < |row| ==> DescendingOrder(row)[i] == i
  {
    var order := DescendingOrder(row);
    forall a, b | 0 <= a < b < |order|
      ensures order[a] < order[b]
    {
      assert row[order[a]] == row[order[b]];
    }
    forall i | 0 <= i < |order|
      ensures order[i] == i
    {
      IncreasingGap(order, 0, i);
      IncreasingGap(order, i, |order| - 1);
    }
  }

  /** A rearrangement of the enumeration of `row` pairs each position with its own score. */
  lemma EnumeratedPairs(row: seq<real>, ps: seq<(nat, real)>)
    requires multiset(ps) == multiset(Enumerate(row))
    ensures forall k :: 0 <= k < |ps| ==> ps[k].0 < |row| && ps[k].1 == row[ps[k].0]
    ensures forall p :: 0 <= p < |row| ==> p in Keys(ps)
  {
    var e := Enumerate(row);
    forall k | 0 <= k < |ps|
      ensures ps[k].0 < |row| && ps[k].1 == row[ps[k].0]
    {
      assert ps[k] in multiset(e);
      var i :| 0 <= i < |e| && e[i] == ps[k];
    }
    forall p | 0 <= p < |row|
      ensures p in Keys(ps)
    {
      assert e[p] in multiset(ps);
      var k :| 0 <= k < |ps| && ps[k] == e[p];
      assert Keys(ps)[k] == p;
    }
  }

  /** The sorted enumeration of `row` is a stable descending order of its positions. */
  lemma SortedEnumeration(row: seq<real>, order: seq<nat>)
    requires order == Keys(SortDesc(Enumerate(row)))
    ensures IsDescendingOrder(row, order)
    ensures forall i, j :: 0 <= i < j < |order| && row[order[i]] == row[order[j]] ==> order[i] < order[j]
  {
    var e := Enumerate(row);
    var ps := SortDesc(e);
    SortDescStable(e);
    EnumeratedPairs(row, ps);
    assert IsOrdering(row, order);
    forall i, j | 0 <= i < j < |order|
      ensures row[order[i]] >= row[order[j]]
      ensures row[order[i]] == row[order[j]] ==> order[i] < order[j]
    {
      assert ps[i].1 >= ps[j].1;
    }
  }

  function Negate(row: seq<real>): (r: seq<real>)
    ensures |r| == |row|
    ensures forall i :: 0 <= i < |row| ==> r[i] == -row[i]
  {
    seq(|row|, i requires 0 <= i < |row| => -row[i])
  }

  /**
   * numpy's `argsort(row)`: the positions of `row` by ascending score.
   * numpy does not fix the order of equal scores; this one keeps them in
   * position order.
   */
  function Argsort(row: seq<real>): (order: seq<nat>)
    ensures IsAscendingOrder(row, order)
  {
    DescendingOrder(Negate(row))
  }

  /** Python's `xs[::-1]`. */
  function Reverse<T>(xs: seq<T>): (r: seq<T>)
    ensures |r| == |xs|
    ensures forall i :: 0 <= i < |xs| ==> r[i] == xs[|xs| - 1 - i]
  {
    seq(|xs|, i requires 0 <= i < |xs| => xs[|xs| - 1 - i])
  }

  /** Reading an ascending order backwards gives a descending one. */
  lemma ReversedAscendingIsDescending(row: seq<real>, order: seq<nat>)
    requires IsAscendingOrder(row, order)
    ensures IsDescendingOrder(row, Reverse(order))
  {
    var r := Reverse(order);
    forall p | 0 <= p < |row|
      ensures p in r
    {
      assert p in order;
      var k :| 0 <= k < |order| && order[k] == p;
      assert r[|order| - 1 - k] == p;
    }
    forall i, j | 0 <= i < j < |r|
      ensures row[r[i]] >= row[r[j]]
    {
      assert r[i] == order[|order| - 1 - i] && r[j] == order[|order| - 1 - j];
    }
  }

  /** Python's slice `xs[lo:hi]` for non-negative bounds. */
  function Slice<T>(xs: seq<T>, lo: nat, hi: nat): (r: seq<T>)
    ensures |r| == if lo < hi && lo < |xs| then Min(hi, |xs|) - lo else 0
    ensures forall k :: 0 <= k < |r| ==> r[k] == xs[lo + k]
  {
    if lo < hi && lo < |xs| then xs[lo..Min(hi, |xs|)] else []
  }

  /**
   * What `order[1:n+1]` keeps of a descending order: at most `n` positions,
   * none scoring above the dropped first one, and none scoring below a
   * position that was left out.
   */
  lemma TopAfterFirst(row: seq<real>, order: seq<nat>, n: nat)
    requires IsDescendingOrder(row, order)
    ensures |Slice(order, 1, n + 1)| == if |row| == 0 then 0 else Min(n, |row| - 1)
    ensures forall k :: k in Slice(order, 1, n + 1) ==> k < |row| && row[k] <= row[order[0]]
    ensures forall k, p :: k in Slice(order, 1, n + 1) && 0 <= p < |row| && p !in Slice(order, 1, n + 1) && p != order[0] ==> row[p] <= row[k]
  {
    var top := Slice(order, 1, n + 1);
    forall k | k in top
      ensures k < |row| && row[k] <= row[order[0]]
    {
      var i :| 0 <= i < |top| && top[i] == k;
      assert top[i] == order[1 + i];
    }
    forall k, p | k in top && 0 <= p < |row| && p !in top && p != order[0]
      ensures row[p] <= row[k]
    {
      var i :| 0 <= i < |top| && top[i] == k;
      assert p in order;
      var j :| 0 <= j < |order| && order[j] == p;
      assert j != 0;
      assert order[1 + i] == k;
    }
  }

  /** A kept position comes before every left-out one in the order. */
  lemma KeptBefore(row: seq<real>, order: seq<nat>, n: nat, k: nat, p: nat) returns (i: nat, j: nat)
    requires IsDescendingOrder(row, order)
    requires k in Slice(order, 1, n + 1) && p < |row| && p !in Slice(order, 1, n + 1) && p != order[0]
    ensures i < j < |order| && order[i] == k && order[j] == p
  {
    var top := Slice(order, 1, n + 1);
    var t :| 0 <= t < |top| && top[t] == k;
    i := 1 + t;
    assert p in order;
    j :| 0 <= j < |order| && order[j] == p;
    assert forall m :: 1 <= m <= |top| ==> order[m] == top[m - 1];
  }

  /**
   * A position that scores strictly above every other one sorts first, so
   * `order[1:n+1]` leaves it out.
   */
  lemma StrictBestDropped(row: seq<real>, order: seq<nat>, q: nat, n: nat)
    requires IsDescendingOrder(row, order) && q < |row|
    requires forall p :: 0 <= p < |row| && p != q ==> row[p] < row[q]
    ensures |order| > 0 && order[0] == q && q !in Slice(order, 1, n + 1)
  {
    assert q in order;
    assert forall i :: 0 <= i < |order| ==> row[order[0]] >= row[order[i]];
    assert order[0] < |row|;
    var top := Slice(order, 1, n + 1);
    forall i | 0 <= i < |top|
      ensures top[i] != q
    {
      assert top[i] == order[1 + i];
    }
  }

  /**
   * Python's `dict(zip(keys, scores))` over the pairs: a key given twice
   * keeps its last score.
   */
  function ToMap<K>(ps: seq<(K, real)>): (m: map<K, real>)
    ensures m.Keys == set p | p in ps :: p.0
    ensures |m| <= |ps|
    ensures forall k :: k in m ==> (k, m[k]) in ps
  {
    if ps == [] then
      map[]
    else
      var last := ps[|ps| - 1];
      var m := ToMap(ps[..|ps| - 1]);
      assert ps == ps[..|ps| - 1] + [last];
      m[last.0 := last.1]
  }

  /**
   * A key given more than once keeps the score of its last pair: the score
   * of `key` comes from a pair after which `key` does not occur again.
   */
  lemma {:induction false} ToMapLastWins<K>(ps: seq<(K, real)>, key: K) returns (i: nat)
    requires key in ToMap(ps)
    ensures i < |ps| && ps[i] == (key, ToMap(ps)[key])
    ensures forall j :: i < j < |ps| ==> ps[j].0 != key
  {
    var init := ps[..|ps| - 1];
    var last := ps[|ps| - 1];
    if key == last.0 {
      i := |ps| - 1;
    } else {
      i := ToMapLastWins(init, key);
      assert ps[i] == init[i];
      forall j | i < j < |ps|
        ensures ps[j].0 != key
      {
        if j < |init| {
          assert ps[j] == init[j];
        }
      }
    }
  }

  /** With distinct keys, `dict(zip(keys, scores))` keeps every pair. */
  lemma {:induction false} ToMapDistinct<K>(ps: seq<(K, real)>)
    requires forall i, j :: 0 <= i < j < |ps| ==> ps[i].0 != ps[j].0
    ensures |ToMap(ps)| == |ps|
    ensures forall k :: 0 <= k < |ps| ==> ps[k].0 in ToMap(ps) && ToMap(ps)[ps[k].0] == ps[k].1
  {
    if ps != [] {
      var init := ps[..|ps| - 1];
      var last := ps[|ps| - 1];
      ToMapDistinct(init);
      NotAKey(init, last.0);
      var m := ToMap(init);
      assert ToMap(ps) == m[last.0 := last.1];
      forall k | 0 <= k < |ps| - 1
        ensures ps[k].0 in ToMap(ps) && ToMap(ps)[ps[k].0] == ps[k].1
      {
        assert ps[k] == init[k];
      }
    }
  }

  lemma NotAKey<K>(ps: seq<(K, real)>, key: K)
    requires forall i :: 0 <= i < |ps| ==> ps[i].0 != key
    ensures key !in ToMap(ps)
  {
    forall p | p in ps
      ensures p.0 != key
    {
      var i :| 0 <= i < |ps| && ps[i] == p;
    }
  }

  /** Where a key of `ToMap(ps)` comes from among the pairs. */
  lemma KeyPosition<K>(ps: seq<(K, real)>, key: K) returns (k: nat)
    requires key in ToMap(ps)
    ensures k < |ps| && ps[k] == (key, ToMap(ps)[key])
  {
    var i :| 0 <= i < |ps| && ps[i] == (key, ToMap(ps)[key]);
    k := i;
  }

  lemma Pick(s: set<int>) returns (y: int)
    requires s != {}
    ensures y in s
  {
    if forall x :: x !in s {
      assert false;
    }
    y :| y in s;
  }

  /** `m` is the least element of `s`. */
  predicate IsLeast(s: set<int>, m: int)
  {
    m in s && forall x :: x in s ==> m <= x
  }

  lemma {:induction false} HasMinimum(s: set<int>)
    requires s != {}
    ensures exists m :: IsLeast(s, m)
  {
    var y := Pick(s);
    if s == {y} {
      assert IsLeast(s, y);
    } else {
      HasMinimum(s - {y});
      var m :| IsLeast(s - {y}, m);
      var least := if y < m then y else m;
      forall x | x in s
        ensures least <= x
      {
        if x != y {
          assert x in s - {y};
        }
      }
      assert IsLeast(s, least);
    }
  }

  lemma LeastIsUnique(s: set<int>)
    ensures forall m1, m2 :: IsLeast(s, m1) && IsLeast(s, m2) ==> m1 == m2
  {
  }

  /** The elements of `s` in ascending order. */
  function SortedIds(s: set<int>): (r: seq<int>)
    ensures forall x :: x in r <==> x in s
    ensures forall i, j :: 0 <= i < j < |r| ==> r[i] < r[j]
    decreases |s|
  {
    if s == {} then
      []
    else
      HasMinimum(s);
      LeastIsUnique(s);
      var m :| m in s && IsLeast(s, m);
      var rest := SortedIds(s - {m});
      AboveLeast(s, m, rest);
      [m] + rest
  }

  lemma AboveLeast(s: set<int>, m: int, rest: seq<int>)
    requires IsLeast(s, m)
    requires forall x :: x in rest <==> x in s - {m}
    requires forall i, j :: 0 <= i < j < |rest| ==> rest[i] < rest[j]
    ensures forall x :: x in [m] + rest <==> x in s
    ensures forall i, j :: 0 <= i < j < |[m] + rest| ==> ([m] + rest)[i] < ([m] + rest)[j]
  {
    var r := [m] + rest;
    forall i, j | 0 <= i < j < |r|
      ensures r[i] < r[j]
    {
      assert r[j] == rest[j - 1];
      assert rest[j - 1] in s - {m};
      if i > 0 {
        assert r[i] == rest[i - 1];
      }
    }
  }
}
