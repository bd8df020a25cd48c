/**
 pandas `merge(cases, centroids, on=['State', 'County'], how='left')`:
 every case row is kept, in order; it is repeated once per centroid row
 with the same key (in centroid order) and carries that row's
 coordinates, or it appears once with both coordinates missing when no
 centroid row has its key. Keys are compared as exact strings.
 */
module Merge {
  import opened Wrappers
  import opened Records
  import opened Sequences

  /** Some centroid row has key `key`. */
  predicate HasCentroid(cents: seq<CentroidRecord>, key: CountyKey)
  {
    exists j :: 0 <= j < |cents| && cents[j].Key() == key
  }

  /** No two centroid rows share a (State, County) key. */
  predicate UniqueKeys(cents: seq<CentroidRecord>)
  {
    forall i, j :: 0 <= i < j < |cents| ==> cents[i].Key() != cents[j].Key()
  }

  /** The centroid rows whose key is `key`, in table order. */
  function Matches(key: CountyKey, cents: seq<CentroidRecord>): (m: seq<CentroidRecord>)
    ensures |m| <= |cents|
    ensures forall r :: r in m <==> r in cents && r.Key() == key
    ensures m == [] <==> !HasCentroid(cents, key)
    ensures UniqueKeys(cents) ==> |m| <= 1
  {
    if cents == [] then
      []
    else
      var rest := Matches(key, cents[1..]);
      assert UniqueKeys(cents) ==> UniqueKeys(cents[1..]);
      assert forall r :: r in cents <==> r == cents[0] || r in cents[1..];
      (if cents[0].Key() == key then [cents[0]] else []) + rest
  }

  /** Splitting the centroid table splits its matches the same way. */
  lemma {:induction false} MatchesAppend(key: CountyKey, a: seq<CentroidRecord>, b: seq<CentroidRecord>)
    ensures Matches(key, a + b) == Matches(key, a) + Matches(key, b)
    decreases |a|
  {
    if a != [] {
      var head := if a[0].Key() == key then [a[0]] else [];
      assert (a + b)[0] == a[0] && (a + b)[1..] == a[1..] + b;
      assert Matches(key, a + b) == head + Matches(key, a[1..] + b);
      MatchesAppend(key, a[1..], b);
      AppendAssoc(head, Matches(key, a[1..]), Matches(key, b));
    } else {
      assert a + b == b;
    }
  }

  /** The rows one case row contributes, given its matching centroid rows. */
  function JoinRow(c: CaseRecord, m: seq<CentroidRecord>): (rows: seq<JoinedRecord>)
    ensures |rows| == if m == [] then 1 else |m|
    ensures m == [] ==> rows == [JoinedRecord(c, None, None)]
    ensures forall k :: 0 <= k < |m| ==> rows[k] == JoinedRecord(c, m[k].latitude, m[k].longitude)
  {
    if m == [] then [JoinedRecord(c, None, None)]
    else seq(|m|, k requires 0 <= k < |m| => JoinedRecord(c, m[k].latitude, m[k].longitude))
  }

  /**
   A joined row is explained by the centroid table: its coordinates are
   those of a centroid row with its key, or both missing when no centroid
   row has that key.
   */
  ghost predicate Explained(row: JoinedRecord, cents: seq<CentroidRecord>)
  {
    if HasCentroid(cents, row.Key()) then
      exists r :: r in cents && r.Key() == row.Key() && r.latitude == row.latitude && r.longitude == row.longitude
    else
      row.latitude == None && row.longitude == None
  }

  /** The left join of the case table to the centroid table. */
  function LeftJoin(cases: seq<CaseRecord>, cents: seq<CentroidRecord>): (out: seq<JoinedRecord>)
    ensures |out| >= |cases|
    ensures UniqueKeys(cents) ==> |out| == |cases|
  {
    if cases == [] then
      []
    else
      JoinRow(cases[0], Matches(cases[0].Key(), cents)) + LeftJoin(cases[1..], cents)
  }

  /** Every joined row is a case row, unchanged. */
  lemma {:induction false} LeftJoinRowsFromCases(cases: seq<CaseRecord>, cents: seq<CentroidRecord>)
    ensures forall j :: 0 <= j < |LeftJoin(cases, cents)| ==> LeftJoin(cases, cents)[j].record in cases
    decreases |cases|
  {
    if cases != [] {
      LeftJoinRowsFromCases(cases[1..], cents);
      var rows := JoinRow(cases[0], Matches(cases[0].Key(), cents));
      var tail := LeftJoin(cases[1..], cents);
      var out := LeftJoin(cases, cents);
      assert out == rows + tail;
      forall j | |rows| <= j < |out|
        ensures out[j].record in cases
      {
        assert out[j] == tail[j - |rows|];
      }
    }
  }

  /** The coordinates of every joined row are explained by the centroid table. */
  lemma {:induction false} LeftJoinExplained(cases: seq<CaseRecord>, cents: seq<CentroidRecord>)
    ensures forall j :: 0 <= j < |LeftJoin(cases, cents)| ==> Explained(LeftJoin(cases, cents)[j], cents)
    decreases |cases|
  {
    if cases != [] {
      LeftJoinExplained(cases[1..], cents);
      var m := Matches(cases[0].Key(), cents);
      var rows := JoinRow(cases[0], m);
      var out := LeftJoin(cases, cents);
      assert out == rows + LeftJoin(cases[1..], cents);
      forall j | 0 <= j < |out|
        ensures Explained(out[j], cents)
      {
        if j < |rows| {
          if m != [] {
            assert m[j] in m;
          }
        } else {
          assert out[j] == LeftJoin(cases[1..], cents)[j - |rows|];
        }
      }
    }
  }

  lemma {:induction false} LeftJoinAppend(a: seq<CaseRecord>, b: seq<CaseRecord>, cents: seq<CentroidRecord>)
    ensures LeftJoin(a + b, cents) == LeftJoin(a, cents) + LeftJoin(b, cents)
    decreases |a|
  {
    if a != [] {
      assert (a + b)[0] == a[0];
      assert (a + b)[1..] == a[1..] + b;
      LeftJoinAppend(a[1..], b, cents);
    } else {
      assert a + b == b;
    }
  }

  /**
   The join is made of one block per case row, in case order; the block of
   row `i` is that row joined with its matches, in centroid order.
   */
  lemma LeftJoinBlocks(cases: seq<CaseRecord>, cents: seq<CentroidRecord>, i: nat)
    requires i < |cases|
    ensures LeftJoin(cases, cents)
         == LeftJoin(cases[..i], cents)
          + JoinRow(cases[i], Matches(cases[i].Key(), cents))
          + LeftJoin(cases[i + 1..], cents)
  {
    var rest := cases[i..];
    assert cases == cases[..i] + rest;
    LeftJoinAppend(cases[..i], rest, cents);
    assert rest[0] == cases[i] && rest[1..] == cases[i + 1..];
    assert LeftJoin(rest, cents) == JoinRow(cases[i], Matches(cases[i].Key(), cents)) + LeftJoin(cases[i + 1..], cents);
    AppendAssoc(LeftJoin(cases[..i], cents), JoinRow(cases[i], Matches(cases[i].Key(), cents)), LeftJoin(cases[i + 1..], cents));
  }

  /** Where the block of case row `i` starts in the join. */
  function BlockStart(cases: seq<CaseRecord>, cents: seq<CentroidRecord>, i: nat): nat
    requires i <= |cases|
  {
    |LeftJoin(cases[..i], cents)|
  }

  /** The block of case row `i` ends where the block of row `i + 1` starts. */
  lemma BlockEnd(cases: seq<CaseRecord>, cents: seq<CentroidRecord>, i: nat)
    requires i < |cases|
    ensures BlockStart(cases, cents, i + 1)
         == BlockStart(cases, cents, i) + |JoinRow(cases[i], Matches(cases[i].Key(), cents))|
  {
    assert cases[..i + 1] == cases[..i] + [cases[i]];
    LeftJoinAppend(cases[..i], [cases[i]], cents);
    assert [cases[i]][1..] == [];
  }

  /** The join cut around the block of case row `i`. */
  lemma BlockBounds(cases: seq<CaseRecord>, cents: seq<CentroidRecord>, i: nat)
    returns (pre: seq<JoinedRecord>, post: seq<JoinedRecord>)
    requires i < |cases|
    ensures |pre| == BlockStart(cases, cents, i)
    ensures LeftJoin(cases, cents) == pre + JoinRow(cases[i], Matches(cases[i].Key(), cents)) + post
  {
    pre, post := LeftJoin(cases[..i], cents), LeftJoin(cases[i + 1..], cents);
    LeftJoinBlocks(cases, cents, i);
  }

  /** Row `k` of the block of case row `i`, read off the whole join. */
  lemma BlockRow(cases: seq<CaseRecord>, cents: seq<CentroidRecord>, i: nat, k: nat)
    requires i < |cases|
    requires k < |JoinRow(cases[i], Matches(cases[i].Key(), cents))|
    ensures BlockStart(cases, cents, i) + k < |LeftJoin(cases, cents)|
    ensures LeftJoin(cases, cents)[BlockStart(cases, cents, i) + k]
         == JoinRow(cases[i], Matches(cases[i].Key(), cents))[k]
  {
    var pre, post := BlockBounds(cases, cents, i);
    IndexInMiddle(LeftJoin(cases, cents), pre, JoinRow(cases[i], Matches(cases[i].Key(), cents)), post, k);
  }

  /** A case row without a centroid appears exactly once, with no coordinates. */
  lemma UnmatchedRowKeptOnce(cases: seq<CaseRecord>, cents: seq<CentroidRecord>, i: nat)
    requires i < |cases| && !HasCentroid(cents, cases[i].Key())
    ensures BlockStart(cases, cents, i + 1) == BlockStart(cases, cents, i) + 1
    ensures BlockStart(cases, cents, i) < |LeftJoin(cases, cents)|
    ensures LeftJoin(cases, cents)[BlockStart(cases, cents, i)] == JoinedRecord(cases[i], None, None)
  {
    var rows := JoinRow(cases[i], Matches(cases[i].Key(), cents));
    assert rows == [JoinedRecord(cases[i], None, None)];
    BlockEnd(cases, cents, i);
    var pre, post := BlockBounds(cases, cents, i);
    IndexInMiddle(LeftJoin(cases, cents), pre, rows, post, 0);
  }

  /**
   From position `start` on, `out` holds case row `c` once per centroid row
   of `m`, in order, each time with that centroid's coordinates.
   */
  ghost predicate RepeatsWith(out: seq<JoinedRecord>, start: nat, c: CaseRecord, m: seq<CentroidRecord>)
  {
    && start + |m| <= |out|
    && forall k :: 0 <= k < |m| ==> out[start + k] == JoinedRecord(c, m[k].latitude, m[k].longitude)
  }

  /**
   A case row with matches yields one row per match, in centroid order,
   each carrying that centroid's coordinates and the case row unchanged.
   */
  lemma MatchedRowRepeated(cases: seq<CaseRecord>, cents: seq<CentroidRecord>, i: nat)
    requires i < |cases| && HasCentroid(cents, cases[i].Key())
    ensures BlockStart(cases, cents, i + 1) == BlockStart(cases, cents, i) + |Matches(cases[i].Key(), cents)|
    ensures RepeatsWith(LeftJoin(cases, cents), BlockStart(cases, cents, i), cases[i], Matches(cases[i].Key(), cents))
  {
    BlockEnd(cases, cents, i);
    BlockRepeats(cases, cents, i);
  }

  lemma BlockRepeats(cases: seq<CaseRecord>, cents: seq<CentroidRecord>, i: nat)
    requires i < |cases|
    ensures RepeatsWith(LeftJoin(cases, cents), BlockStart(cases, cents, i), cases[i], Matches(cases[i].Key(), cents))
  {
    var m := Matches(cases[i].Key(), cents);
    var rows := JoinRow(cases[i], m);
    var out := LeftJoin(cases, cents);
    var start := BlockStart(cases, cents, i);
    LeftJoinBlocks(cases, cents, i);
    assert start + |rows| <= |out|;
    forall k | 0 <= k < |m|
      ensures out[start + k] == JoinedRecord(cases[i], m[k].latitude, m[k].longitude)
    {
      BlockRow(cases, cents, i, k);
      assert rows[k] == JoinedRecord(cases[i], m[k].latitude, m[k].longitude);
    }
  }

  /**
   With unique centroid keys the join is a row-for-row extension of the case
   table: row `i` is case row `i` with the coordinates of the centroid row
   carrying its key, or with none.
   */
  lemma LeftJoinUniqueKeys(cases: seq<CaseRecord>, cents: seq<CentroidRecord>)
    requires UniqueKeys(cents)
    ensures |LeftJoin(cases, cents)| == |cases|
    ensures forall i :: 0 <= i < |cases| ==> LeftJoin(cases, cents)[i].record == cases[i]
    ensures forall i, r :: 0 <= i < |cases| && r in cents && r.Key() == cases[i].Key() ==>
      LeftJoin(cases, cents)[i].latitude == r.latitude && LeftJoin(cases, cents)[i].longitude == r.longitude
    ensures forall i :: 0 <= i < |cases| && !HasCentroid(cents, cases[i].Key()) ==>
      LeftJoin(cases, cents)[i].latitude == None && LeftJoin(cases, cents)[i].longitude == None
  {
    var out := LeftJoin(cases, cents);
    forall i | 0 <= i < |cases|
      ensures out[i] == JoinRow(cases[i], Matches(cases[i].Key(), cents))[0]
    {
      assert BlockStart(cases, cents, i) == i;
      BlockRow(cases, cents, i, 0);
    }
    forall i, r | 0 <= i < |cases| && r in cents && r.Key() == cases[i].Key()
      ensures out[i].latitude == r.latitude && out[i].longitude == r.longitude
    {
      var m := Matches(cases[i].Key(), cents);
      assert r in m;
      assert m == [m[0]];
    }
  }

  /** Duplicate centroid keys are not collapsed: every match is emitted. */
  lemma DuplicateKeysEmitEveryMatch(c: CaseRecord, r1: CentroidRecord, r2: CentroidRecord)
    requires r1.Key() == c.Key() && r2.Key() == c.Key()
    ensures |LeftJoin([c], [r1, r2])| == 2
    ensures LeftJoin([c], [r1, r2]) == [JoinedRecord(c, r1.latitude, r1.longitude), JoinedRecord(c, r2.latitude, r2.longitude)]
  {
    assert [r1, r2][1..] == [r2];
    assert Matches(c.Key(), [r1, r2]) == [r1, r2];
    assert [c][1..] == [];
  }

}
