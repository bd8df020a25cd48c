/**
 The web dashboard (birdflu_app.py): its own, four-entry state-name table,
 and everything it computes from the merged table: the map points, the
 three metrics and the expander listing the counties without coordinates,
 which it shows, and the per-state summary, which it computes but never
 displays.
 */
module Dashboard {
  import opened Wrappers
  import opened Strings
  import opened Records
  import opened Normalize
  import opened Merge
  import opened Pipeline
  import opened Reports

  /**
   The dashboard's `state_dict`. It lists only the first four states; the
   rest of the table was never filled in.
   */
  const StateCodes: StateTable := map["Alabama" := "AL", "Alaska" := "AK", "Arizona" := "AZ", "Arkansas" := "AR"]

  /** `standardize_state_name` as the dashboard defines it. */
  function StandardizeStateName(state: String): (r: String)
    ensures state == "Alabama" ==> r == "AL"
    ensures state == "Alaska" ==> r == "AK"
    ensures state == "Arizona" ==> r == "AZ"
    ensures state == "Arkansas" ==> r == "AR"
    ensures state !in {"Alabama", "Alaska", "Arizona", "Arkansas"} ==> r == state
  {
    Standardize(StateCodes, state)
  }

  /** Under the dashboard's table every state after Arkansas keeps its full name. */
  lemma IowaIsNotStandardized()
    ensures StandardizeStateName("Iowa") == "Iowa"
  {
  }

  /** Two-letter codes, such as "IA", are not names and pass through. */
  lemma CodesAreUnchanged()
    ensures forall state :: |state| == 2 ==> StandardizeStateName(state) == state
  {
  }

  lemma StandardizeTwiceIsOnce(state: String)
    ensures StandardizeStateName(StandardizeStateName(state)) == StandardizeStateName(state)
  {
    assert CodesAreNotNames(StateCodes);
    StandardizeIdempotent(StateCodes, state);
  }

  /** `df_merged`: both tables cleaned with the dashboard's table, then left-joined. */
  function Merged(cases: seq<CaseRecord>, cents: seq<CentroidRecord>): (rows: seq<JoinedRecord>)
    ensures |rows| >= |cases|
    ensures UniqueKeys(NormalizeCentroids(StateCodes, cents)) ==> |rows| == |cases|
  {
    CleanAndMerge(StateCodes, cases, cents)
  }

  /**
   A case from "Iowa" in "Polk County" and a centroid filed under "IA" and
   "Polk": the dashboard's table leaves "Iowa" as it is, so the cleaned
   keys ("Iowa", "Polk") and ("IA", "Polk") differ and the merged row has
   no coordinates.
   */
  lemma MissesIowa(c: CaseRecord, lat: Coord, lon: Coord)
    requires c.state == "Iowa" && c.county == "Polk County"
    ensures Merged([c], [CentroidRecord("IA", "Polk", Some(lat), Some(lon))])
      == [JoinedRecord(c.(county := "Polk"), None, None)]
  {
    var cent := CentroidRecord("IA", "Polk", Some(lat), Some(lon));
    IowaPolkCleaned(c);
    IaPolkCleaned(cent);
    assert |cent.state| != |c.state|;
    MergeOneWithOne(StateCodes, c, cent);
  }

  /** The case "Iowa", "Polk County" cleans to the key ("Iowa", "Polk"). */
  lemma IowaPolkCleaned(c: CaseRecord)
    requires c.state == "Iowa" && c.county == "Polk County"
    ensures NormalizeCase(StateCodes, c) == c.(county := "Polk")
  {
    IowaAndIaUnchanged();
    CleanPolkCounty();
  }

  /** A centroid filed under "IA" and "Polk" is left as it is. */
  lemma IaPolkCleaned(cent: CentroidRecord)
    requires cent.state == "IA" && cent.county == "Polk"
    ensures NormalizeCentroid(StateCodes, cent) == cent
  {
    IowaAndIaUnchanged();
    CleanPolkCounty();
  }

  lemma IowaAndIaUnchanged()
    ensures Standardize(StateCodes, "Iowa") == "Iowa"
    ensures Standardize(StateCodes, "IA") == "IA"
  {
    IowaIsNotStandardized();
    CodesAreUnchanged();
    assert |"IA"| == 2;
  }

  /**
   What the dashboard computes. It shows `points`, `stats` and `expander`;
   `summary` is computed and then left unused. `expander` is absent when no
   row lacks a latitude.
   */
  datatype View = View(
    points: seq<Point>,
    summary: seq<StateCount>,
    stats: Stats,
    missingCount: nat,
    expander: Option<seq<CountyKey>>)

  /**
   The dashboard's computation from the two loaded tables. The figures
   agree with each other: every drawn point and every row without a
   latitude is one of the cases, the state summary has one line per
   affected state and adds up to the case count, and the expander appears
   exactly when some case lacks coordinates, listing at least one county
   and no more counties than such cases.
   */
  function Render(cases: seq<CaseRecord>, cents: seq<CentroidRecord>): (v: View)
    ensures v.stats.totalCases >= |cases|
    ensures |v.points| + v.missingCount <= v.stats.totalCases
    ensures v.stats.statesAffected == |v.summary| && Total(v.summary) == v.stats.totalCases
    ensures v.expander.Some? <==> v.missingCount > 0
    ensures v.expander.Some? ==> 0 < |v.expander.value| <= v.missingCount
  {
    var rows := Merged(cases, cents);
    var missingCount := MissingCount(rows);
    StatesAffectedMatchesSummary(rows);
    var expander := if missingCount > 0 then Some(MissingTable(rows)) else None;
    MissingTableEmptyIff(rows);
    View(ClusterPoints(rows), StateSummary(rows), CalculateStats(rows), missingCount, expander)
  }

}
