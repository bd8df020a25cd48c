/**
 The steps both scripts run before drawing anything: clean the County and
 State columns of both tables the same way, then left-join the cases to
 the centroids on the cleaned (State, County) pair.
 */
module Pipeline {
  import opened Wrappers
  import opened Strings
  import opened Records
  import opened Normalize
  import opened Merge

  /** The merged table, given the script's state-name table. */
  function CleanAndMerge(table: StateTable, cases: seq<CaseRecord>, cents: seq<CentroidRecord>): (out: seq<JoinedRecord>)
    ensures |out| >= |cases|
    ensures UniqueKeys(NormalizeCentroids(table, cents)) ==> |out| == |cases|
  {
    LeftJoin(NormalizeCases(table, cases), NormalizeCentroids(table, cents))
  }

  /** The join sees only cleaned rows: every merged row is a case row after cleaning. */
  lemma MergedRowsAreCleanCases(table: StateTable, cases: seq<CaseRecord>, cents: seq<CentroidRecord>)
    ensures forall row :: row in CleanAndMerge(table, cases, cents) ==> row.record in NormalizeCases(table, cases)
  {
    var ncases := NormalizeCases(table, cases);
    var out := LeftJoin(ncases, NormalizeCentroids(table, cents));
    LeftJoinRowsFromCases(ncases, NormalizeCentroids(table, cents));
    forall row | row in out
      ensures row.record in ncases
    {
      var j :| 0 <= j < |out| && out[j] == row;
    }
  }

  /** No merged row's County carries edge whitespace. */
  lemma MergedCountiesTrimmed(table: StateTable, cases: seq<CaseRecord>, cents: seq<CentroidRecord>)
    ensures forall row :: row in CleanAndMerge(table, cases, cents) ==> Trimmed(row.record.county)
  {
    MergedRowsAreCleanCases(table, cases, cents);
    forall row | row in CleanAndMerge(table, cases, cents)
      ensures Trimmed(row.record.county)
    {
      var ncases := NormalizeCases(table, cases);
      var i :| 0 <= i < |ncases| && ncases[i] == row.record;
      assert row.record.county == NormalizeCase(table, cases[i]).Key().county;
    }
  }

  /**
   The coordinates of every merged row are those of a centroid row whose
   cleaned key equals the row's, or both missing when no centroid row
   cleans to that key.
   */
  lemma MergedOnCleanKeys(table: StateTable, cases: seq<CaseRecord>, cents: seq<CentroidRecord>)
    ensures forall row :: row in CleanAndMerge(table, cases, cents) ==>
      Explained(row, NormalizeCentroids(table, cents))
  {
    var ncents := NormalizeCentroids(table, cents);
    var out := LeftJoin(NormalizeCases(table, cases), ncents);
    LeftJoinExplained(NormalizeCases(table, cases), ncents);
    forall row | row in out
      ensures Explained(row, ncents)
    {
      var j :| 0 <= j < |out| && out[j] == row;
    }
  }

  /**
   A case row whose cleaned key no cleaned centroid row has gets no
   coordinates, and keeps its other columns.
   */
  lemma UnmatchedCaseHasNoCoordinates(table: StateTable, cases: seq<CaseRecord>, cents: seq<CentroidRecord>, i: nat)
    requires i < |cases|
    requires !HasCentroid(NormalizeCentroids(table, cents), NormalizeCase(table, cases[i]).Key())
    ensures JoinedRecord(NormalizeCase(table, cases[i]), None, None) in CleanAndMerge(table, cases, cents)
  {
    UnmatchedRowKeptOnce(NormalizeCases(table, cases), NormalizeCentroids(table, cents), i);
  }

  /**
   One case row against one centroid row: the merge yields exactly one
   row, which has the centroid's coordinates when the two cleaned keys
   agree and none when they differ.
   */
  lemma MergeOneWithOne(table: StateTable, c: CaseRecord, cent: CentroidRecord)
    ensures NormalizeCase(table, c).Key() == NormalizeCentroid(table, cent).Key() ==>
      CleanAndMerge(table, [c], [cent]) == [JoinedRecord(NormalizeCase(table, c), cent.latitude, cent.longitude)]
    ensures NormalizeCase(table, c).Key() != NormalizeCentroid(table, cent).Key() ==>
      CleanAndMerge(table, [c], [cent]) == [JoinedRecord(NormalizeCase(table, c), None, None)]
  {
    var cases := NormalizeCases(table, [c]);
    var cents := NormalizeCentroids(table, [cent]);
    var key := NormalizeCase(table, c).Key();
    assert cases[0] == NormalizeCase(table, c);
    assert cents == [NormalizeCentroid(table, cent)];
    LeftJoinUniqueKeys(cases, cents);
    var out := LeftJoin(cases, cents);
    assert out == [out[0]];
    if key == cents[0].Key() {
      assert cents[0] in cents;
    } else {
      assert !HasCentroid(cents, key);
    }
  }

}
