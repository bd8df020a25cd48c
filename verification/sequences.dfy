/** Generic sequence helpers: the distinct values of a column and its first rows. */
module Sequences {

  function Elements<T>(xs: seq<T>): set<T>
  {
    set x | x in xs
  }

  /**
   pandas `drop_duplicates`: the first occurrence of every value, in order
   of first appearance. Each value of `xs` is kept exactly once.
   */
  function Distinct<T(==,!new)>(xs: seq<T>): (r: seq<T>)
    ensures forall x :: multiset(r)[x] == if x in xs then 1 else 0
    ensures |r| == |Elements(xs)| <= |xs|
  {
    if xs == [] then
      []
    else
      var init := xs[..|xs| - 1];
      var last := xs[|xs| - 1];
      var d := Distinct(init);
      assert xs == init + [last];
      assert Elements(xs) == Elements(init) + {last};
      assert last in d <==> last in Elements(init) by {
        assert last in d <==> multiset(d)[last] > 0;
      }
      if last in d then
        assert Elements(xs) == Elements(init);
        d
      else
        d + [last]
  }

  /** The position where `x` first appears in `xs`. */
  function FirstIndex<T(==)>(xs: seq<T>, x: T): (i: nat)
    requires x in xs
    ensures i < |xs| && xs[i] == x
    ensures forall k :: 0 <= k < i ==> xs[k] != x
  {
    if xs[0] == x then 0 else 1 + FirstIndex(xs[1..], x)
  }

  /** Appending a value leaves the first position of every earlier value alone. */
  lemma FirstIndexAppend<T>(init: seq<T>, last: T, y: T)
    ensures y in init ==> FirstIndex(init + [last], y) == FirstIndex(init, y)
    ensures y !in init && y == last ==> FirstIndex(init + [last], y) == |init|
  {
    var xs := init + [last];
    if y in init {
      var f := FirstIndex(init, y);
      assert xs[f] == y;
    } else if y == last {
      assert xs[|init|] == y;
    }
  }

  /** The kept values come in the order of their first appearance. */
  lemma {:induction false} DistinctInFirstOrder<T(!new)>(xs: seq<T>)
    ensures forall i :: 0 <= i < |Distinct(xs)| ==> Distinct(xs)[i] in xs
    ensures forall i, j :: 0 <= i < j < |Distinct(xs)| ==>
      FirstIndex(xs, Distinct(xs)[i]) < FirstIndex(xs, Distinct(xs)[j])
    decreases |xs|
  {
    DistinctWithin(xs);
    if xs != [] {
      var init, last := DistinctSnoc(xs);
      DistinctInFirstOrder(init);
      OrderStep(init, last, Distinct(init), Distinct(xs));
    }
  }

  /** `Distinct` of a non-empty sequence, in terms of its last value and the values before. */
  lemma DistinctSnoc<T(!new)>(xs: seq<T>) returns (init: seq<T>, last: T)
    requires xs != []
    ensures xs == init + [last] && |init| < |xs|
    ensures (last in init && Distinct(xs) == Distinct(init))
         || (last !in init && Distinct(xs) == Distinct(init) + [last])
  {
    init, last := xs[..|xs| - 1], xs[|xs| - 1];
    assert xs == init + [last];
    var d := Distinct(init);
    assert last in d <==> last in init by {
      assert last in d <==> multiset(d)[last] > 0;
    }
  }

  lemma DistinctWithin<T(!new)>(xs: seq<T>)
    ensures forall i :: 0 <= i < |Distinct(xs)| ==> Distinct(xs)[i] in xs
  {
    var r := Distinct(xs);
    forall i | 0 <= i < |r|
      ensures r[i] in xs
    {
      assert multiset(r)[r[i]] > 0;
    }
  }

  /** Appending a value keeps the order of the values kept so far, and puts a new one last. */
  lemma OrderStep<T>(init: seq<T>, last: T, d: seq<T>, r: seq<T>)
    requires forall i :: 0 <= i < |d| ==> d[i] in init
    requires forall i, j :: 0 <= i < j < |d| ==> FirstIndex(init, d[i]) < FirstIndex(init, d[j])
    requires (last in init && r == d) || (last !in init && r == d + [last])
    ensures forall i, j :: 0 <= i < j < |r| ==>
      r[i] in init + [last] && r[j] in init + [last]
      && FirstIndex(init + [last], r[i]) < FirstIndex(init + [last], r[j])
  {
    forall i | 0 <= i < |d|
      ensures FirstIndex(init + [last], d[i]) == FirstIndex(init, d[i]) < |init|
    {
      FirstIndexAppend(init, last, d[i]);
    }
    if last !in init {
      FirstIndexAppend(init, last, last);
      assert r[|d|] == last;
    }
  }

  /** A sequence with no repeated value. */
  ghost predicate NoDuplicates<T(!new)>(xs: seq<T>)
  {
    forall x :: multiset(xs)[x] <= 1
  }

  /** Counting at most one of each value means no value sits at two positions. */
  lemma NoRepeats<T(!new)>(xs: seq<T>)
    requires NoDuplicates(xs)
    ensures forall i, j :: 0 <= i < j < |xs| ==> xs[i] != xs[j]
  {
    forall i, j | 0 <= i < j < |xs|
      ensures xs[i] != xs[j]
    {
      assert xs == xs[..i] + [xs[i]] + xs[i + 1..j] + [xs[j]] + xs[j + 1..];
      var m := multiset(xs);
      assert m == multiset(xs[..i]) + multiset{xs[i]} + multiset(xs[i + 1..j]) + multiset{xs[j]} + multiset(xs[j + 1..]);
      assert m[xs[i]] >= 1 + multiset{xs[j]}[xs[i]];
    }
  }

  /** pandas `head(n)`: the first `n` rows, or all of them when there are fewer. */
  function Take<T>(xs: seq<T>, n: nat): (r: seq<T>)
    ensures |r| <= n && |r| <= |xs|
    ensures |r| == n || r == xs
    ensures forall i :: 0 <= i < |r| ==> r[i] == xs[i]
  {
    if |xs| <= n then xs else xs[..n]
  }

  lemma AppendAssoc<T>(a: seq<T>, b: seq<T>, c: seq<T>)
    ensures a + (b + c) == (a + b) + c
  {
  }

  /** Position `|a| + k` of a sequence made of `a`, `b`, `c` is position `k` of `b`. */
  lemma IndexInMiddle<T>(whole: seq<T>, a: seq<T>, b: seq<T>, c: seq<T>, k: nat)
    requires whole == a + b + c && k < |b|
    ensures |a| + k < |whole| && whole[|a| + k] == b[k]
  {
    assert (a + b)[|a| + k] == b[k];
  }

}
