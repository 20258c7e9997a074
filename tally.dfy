/** Counting occurrences in a sequence: the arithmetic behind the per-key
    groups of the duplicate scan and the per-category statistics. */
module Tally {

  /** Number of occurrences of k in xs. */
  function Count<K(==)>(xs: seq<K>, k: K): nat {
    if |xs| == 0 then 0
    else Count(xs[..|xs| - 1], k) + (if xs[|xs| - 1] == k then 1 else 0)
  }

  /** k occurs exactly when its count is positive, and never more often
      than xs is long. */
  lemma {:induction false} CountZero<K>(xs: seq<K>, k: K)
    ensures Count(xs, k) <= |xs|
    ensures Count(xs, k) == 0 <==> k !in xs
  {
    if |xs| > 0 {
      var init := xs[..|xs| - 1];
      assert xs == init + [xs[|xs| - 1]];
      CountZero(init, k);
    }
  }

  predicate NoDuplicates<K(==)>(xs: seq<K>) {
    forall i, j :: 0 <= i < j < |xs| ==> xs[i] != xs[j]
  }

  lemma NoDuplicatesCons<K>(k: K, ks: seq<K>)
    requires k !in ks && NoDuplicates(ks)
    ensures NoDuplicates([k] + ks)
  {
    forall i, j | 0 <= i < j < |ks| + 1 ensures ([k] + ks)[i] != ([k] + ks)[j] {
      if i == 0 {
        assert ([k] + ks)[j] == ks[j - 1];
      }
    }
  }

  /** The distinct elements of xs, in the order of their first occurrence
      (the key order of a JavaScript Map filled from xs). */
  function Distinct<K(==, !new)>(xs: seq<K>): (ks: seq<K>)
    ensures forall k :: k in ks <==> k in xs
    ensures NoDuplicates(ks)
  {
    if |xs| == 0 then []
    else
      assert xs == xs[..|xs| - 1] + [xs[|xs| - 1]];
      var ks := Distinct(xs[..|xs| - 1]);
      if xs[|xs| - 1] in ks then ks else ks + [xs[|xs| - 1]]
  }

  lemma DistinctSnoc<K(!new)>(xs: seq<K>, x: K)
    ensures Distinct(xs + [x]) == if x in Distinct(xs) then Distinct(xs) else Distinct(xs) + [x]
  {
    assert (xs + [x])[..|xs|] == xs;
  }

  /** Number of elements of xs that satisfy p. */
  function CountWhere<K>(xs: seq<K>, p: K -> bool): (n: nat)
    ensures n <= |xs|
  {
    if |xs| == 0 then 0
    else CountWhere(xs[..|xs| - 1], p) + (if p(xs[|xs| - 1]) then 1 else 0)
  }

  /** The sum of Count(xs, k) over the keys k of ks that satisfy p. */
  function SumCounts<K(==)>(ks: seq<K>, xs: seq<K>, p: K -> bool): nat {
    if |ks| == 0 then 0
    else (if p(ks[0]) then Count(xs, ks[0]) else 0) + SumCounts(ks[1..], xs, p)
  }

  lemma {:induction false} CountConcat<K>(xs: seq<K>, ys: seq<K>, k: K)
    ensures Count(xs + ys, k) == Count(xs, k) + Count(ys, k)
  {
    if |ys| == 0 {
      assert xs + ys == xs;
    } else {
      var zs := xs + ys;
      assert zs[..|zs| - 1] == xs + ys[..|ys| - 1];
      CountConcat(xs, ys[..|ys| - 1], k);
    }
  }

  /** Appending one element x to xs adds one to the sum exactly when x is one
      of the (distinct) selected keys. */
  lemma {:induction false} SumCountsSnoc<K>(ks: seq<K>, xs: seq<K>, x: K, p: K -> bool)
    requires NoDuplicates(ks)
    ensures SumCounts(ks, xs + [x], p) == SumCounts(ks, xs, p) + (if x in ks && p(x) then 1 else 0)
  {
    if |ks| > 0 {
      var ys := xs + [x];
      assert ys[..|ys| - 1] == xs;
      assert ks == [ks[0]] + ks[1..];
      assert x in ks[1..] ==> x != ks[0];
      SumCountsSnoc(ks[1..], xs, x, p);
    }
  }

  lemma {:induction false} SumCountsAppend<K>(ks: seq<K>, k: K, xs: seq<K>, p: K -> bool)
    ensures SumCounts(ks + [k], xs, p) == SumCounts(ks, xs, p) + (if p(k) then Count(xs, k) else 0)
  {
    if |ks| == 0 {
      assert ks + [k] == [k];
    } else {
      assert (ks + [k])[1..] == ks[1..] + [k];
      SumCountsAppend(ks[1..], k, xs, p);
    }
  }

  /** Summing the counts of the distinct elements that satisfy p counts
      exactly the elements of xs that satisfy p: every element is counted
      once, under its own key. */
  lemma {:induction false} SumOfDistinctCounts<K(!new)>(xs: seq<K>, p: K -> bool)
    ensures SumCounts(Distinct(xs), xs, p) == CountWhere(xs, p)
  {
    if |xs| > 0 {
      var ys, x := xs[..|xs| - 1], xs[|xs| - 1];
      assert xs == ys + [x];
      SumOfDistinctCounts(ys, p);
      var d := Distinct(ys);
      SumCountsSnoc(d, ys, x, p);
      if x !in d {
        SumCountsAppend(d, x, xs, p);
        CountZero(ys, x);
      }
    }
  }

  /** The position of the first occurrence of k in xs. */
  function FirstIndex<K(==)>(xs: seq<K>, k: K): (i: nat)
    requires k in xs
    ensures i < |xs| && xs[i] == k
    ensures forall j :: 0 <= j < i ==> xs[j] != k
  {
    if xs[0] == k then 0 else 1 + FirstIndex(xs[1..], k)
  }

  lemma {:induction false} FirstIndexSnoc<K>(xs: seq<K>, x: K, k: K)
    requires k in xs
    ensures FirstIndex(xs + [x], k) == FirstIndex(xs, k)
  {
    if xs[0] != k {
      assert (xs + [x])[1..] == xs[1..] + [x];
      FirstIndexSnoc(xs[1..], x, k);
    }
  }

  /** Distinct lists keys in the order of their first occurrence. */
  lemma {:induction false} DistinctInFirstOccurrenceOrder<K(!new)>(xs: seq<K>, a: nat, b: nat)
    requires a < b < |Distinct(xs)|
    ensures FirstIndex(xs, Distinct(xs)[a]) < FirstIndex(xs, Distinct(xs)[b])
  {
    var ys, x := xs[..|xs| - 1], xs[|xs| - 1];
    assert xs == ys + [x];
    DistinctSnoc(ys, x);
    var d := Distinct(ys);
    var ka, kb := Distinct(xs)[a], Distinct(xs)[b];
    assert ka in d;
    FirstIndexSnoc(ys, x, ka);
    if b < |d| {
      DistinctInFirstOccurrenceOrder(ys, a, b);
      FirstIndexSnoc(ys, x, kb);
    } else {
      assert kb == x && x !in ys;
      assert FirstIndex(xs, kb) == |ys|;
    }
  }
}
