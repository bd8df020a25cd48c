/**
 Sorting (State, County) keys into the order `sort_values(['State',
 'County'])` produces, by insertion.
 */
module KeySort {
  import opened Records

  /** No key is followed by a smaller one. */
  predicate Sorted(xs: seq<CountyKey>)
  {
    forall i, j :: 0 <= i < j < |xs| ==> !KeyLess(xs[j], xs[i])
  }

  /** Inserts `x` into sorted `xs` before the first key not below it. */
  function Insert(x: CountyKey, xs: seq<CountyKey>): (r: seq<CountyKey>)
    requires Sorted(xs)
    ensures Sorted(r)
    ensures multiset(r) == multiset(xs) + multiset{x}
  {
    if xs == [] then
      [x]
    else if KeyLess(xs[0], x) then
      var rest := Insert(x, xs[1..]);
      assert xs == [xs[0]] + xs[1..];
      HeadStaysFirst(x, xs, rest);
      [xs[0]] + rest
    else
      NoneBelow(x, xs);
      [x] + xs
  }

  /** A key below `x` and below every later key may stay ahead of them all. */
  lemma HeadStaysFirst(x: CountyKey, xs: seq<CountyKey>, rest: seq<CountyKey>)
    requires Sorted(xs) && xs != [] && KeyLess(xs[0], x)
    requires multiset(rest) == multiset(xs[1..]) + multiset{x}
    ensures forall y :: y in rest ==> !KeyLess(y, xs[0])
  {
    forall y | y in rest
      ensures !KeyLess(y, xs[0])
    {
      assert y in multiset(rest);
      if y == x {
        KeyLessIrreflexive(x);
        if KeyLess(x, xs[0]) { KeyLessTransitive(x, xs[0], x); }
      } else {
        assert y in multiset(xs[1..]);
        var j :| 0 <= j < |xs[1..]| && xs[1..][j] == y;
        assert xs[j + 1] == y;
      }
    }
  }

  /** When the first key is not below `x`, no key of a sorted sequence is. */
  lemma NoneBelow(x: CountyKey, xs: seq<CountyKey>)
    requires Sorted(xs) && xs != [] && !KeyLess(xs[0], x)
    ensures forall j :: 0 <= j < |xs| ==> !KeyLess(xs[j], x)
  {
    forall j | 0 <= j < |xs|
      ensures !KeyLess(xs[j], x)
    {
      if KeyLess(xs[j], x) {
        KeyLessTotal(xs[0], xs[j]);
        if KeyLess(xs[0], xs[j]) { KeyLessTransitive(xs[0], xs[j], x); }
      }
    }
  }

  /** An insertion sort: the result is sorted and holds exactly the input keys. */
  function Sort(xs: seq<CountyKey>): (r: seq<CountyKey>)
    ensures Sorted(r)
    ensures multiset(r) == multiset(xs)
  {
    if xs == [] then
      []
    else
      assert xs == [xs[0]] + xs[1..];
      Insert(xs[0], Sort(xs[1..]))
  }

  /** A sorted sequence without repeats is strictly increasing. */
  lemma SortedDistinctIsStrict(xs: seq<CountyKey>)
    requires Sorted(xs)
    requires forall i, j :: 0 <= i < j < |xs| ==> xs[i] != xs[j]
    ensures forall i, j :: 0 <= i < j < |xs| ==> KeyLess(xs[i], xs[j])
  {
    forall i, j | 0 <= i < j < |xs|
      ensures KeyLess(xs[i], xs[j])
    {
      KeyLessTotal(xs[i], xs[j]);
    }
  }

  /** Two sorted arrangements of the same keys start with the same key. */
  lemma SameFirst(a: seq<CountyKey>, b: seq<CountyKey>)
    requires Sorted(a) && Sorted(b) && multiset(a) == multiset(b) && a != [] && b != []
    ensures a[0] == b[0]
  {
    assert b[0] in multiset(a) && a[0] in multiset(b);
    var i :| 0 <= i < |a| && a[i] == b[0];
    var j :| 0 <= j < |b| && b[j] == a[0];
    assert i == 0 || !KeyLess(b[0], a[0]);
    assert j == 0 || !KeyLess(a[0], b[0]);
    KeyLessTotal(a[0], b[0]);
  }

  /** Dropping the first key takes exactly that key out of the multiset. */
  lemma TailMultiset(a: seq<CountyKey>)
    requires a != []
    ensures multiset(a[1..]) == multiset(a) - multiset{a[0]}
  {
    assert a == [a[0]] + a[1..];
  }

  /** Sorting leaves no choice: two sorted arrangements of the same keys are equal. */
  lemma {:induction false} SortedIsUnique(a: seq<CountyKey>, b: seq<CountyKey>)
    requires Sorted(a) && Sorted(b) && multiset(a) == multiset(b)
    ensures a == b
    decreases |a|
  {
    assert |b| == |multiset(b)| == |a|;
    if a != [] {
      SameFirst(a, b);
      TailMultiset(a);
      TailMultiset(b);
      SortedIsUnique(a[1..], b[1..]);
      assert a == [a[0]] + a[1..] && b == [b[0]] + b[1..];
    }
  }

}
