/**
 The notebook script (birdfluSL.py): its full fifty-state table, the
 report of counties left without centroids, and the loop that puts one
 marker on the map per located row.
 */
module Notebook {
  import opened Wrappers
  import opened Strings
  import opened Records
  import opened Sequences
  import opened Normalize
  import opened Merge
  import opened Pipeline
  import opened Reports
  import Dashboard

  /**
   The entries of the notebook's `state_dict`, every state's full name
   with its two-letter code, in the order they are written. The literal is
   kept in two halves so that each can be inspected entry by entry.
   */
  const FirstEntries: seq<(String, String)> := [
    ("Alabama", "AL"), ("Alaska", "AK"), ("Arizona", "AZ"), ("Arkansas", "AR"),
    ("California", "CA"), ("Colorado", "CO"), ("Connecticut", "CT"), ("Delaware", "DE"),
    ("Florida", "FL"), ("Georgia", "GA"), ("Hawaii", "HI"), ("Idaho", "ID"),
    ("Illinois", "IL"), ("Indiana", "IN"), ("Iowa", "IA"), ("Kansas", "KS"),
    ("Kentucky", "KY"), ("Louisiana", "LA"), ("Maine", "ME"), ("Maryland", "MD"),
    ("Massachusetts", "MA"), ("Michigan", "MI"), ("Minnesota", "MN"), ("Mississippi", "MS")
  ]

  const LastEntries: seq<(String, String)> := [
    ("Missouri", "MO"), ("Montana", "MT"), ("Nebraska", "NE"), ("Nevada", "NV"),
    ("New Hampshire", "NH"), ("New Jersey", "NJ"), ("New Mexico", "NM"), ("New York", "NY"),
    ("North Carolina", "NC"), ("North Dakota", "ND"), ("Ohio", "OH"), ("Oklahoma", "OK"),
    ("Oregon", "OR"), ("Pennsylvania", "PA"), ("Rhode Island", "RI"), ("South Carolina", "SC"),
    ("South Dakota", "SD"), ("Tennessee", "TN"), ("Texas", "TX"), ("Utah", "UT"),
    ("Vermont", "VT"), ("Virginia", "VA"), ("Washington", "WA"), ("West Virginia", "WV"),
    ("Wisconsin", "WI"), ("Wyoming", "WY")
  ]

  const StateEntries: seq<(String, String)> := FirstEntries + LastEntries

  const StateCodes: StateTable := TableOf(StateEntries)

  /** Every listed name is longer than two characters and every code is two. */
  lemma EntriesShape()
    ensures forall i :: 0 <= i < |StateEntries| ==> |StateEntries[i].0| > 2 && |StateEntries[i].1| <= 2
  {
    HalvesShape();
    assert forall i :: |FirstEntries| <= i < |StateEntries| ==> StateEntries[i] == LastEntries[i - |FirstEntries|];
  }

  lemma HalvesShape()
    ensures forall i :: 0 <= i < |FirstEntries| ==> |FirstEntries[i].0| > 2 && |FirstEntries[i].1| <= 2
    ensures forall i :: 0 <= i < |LastEntries| ==> |LastEntries[i].0| > 2 && |LastEntries[i].1| <= 2
  {
    assert forall i :: 0 <= i < |FirstEntries| ==> |FirstEntries[i].0| > 2 && |FirstEntries[i].1| <= 2;
  }

  /** A name written once in the literal is looked up to the code written with it. */
  lemma Listed(name: String, code: String, at: nat)
    requires at < |StateEntries| && StateEntries[at] == (name, code)
    requires forall i :: 0 <= i < |FirstEntries| && FirstEntries[i].0 == name ==> FirstEntries[i].1 == code
    requires forall i :: 0 <= i < |LastEntries| && LastEntries[i].0 == name ==> LastEntries[i].1 == code
    ensures name in StateCodes && StateCodes[name] == code
  {
    assert forall i :: |FirstEntries| <= i < |StateEntries| ==> StateEntries[i] == LastEntries[i - |FirstEntries|];
    assert (name, code) in StateEntries;
    TableOfLookup(StateEntries, name, code);
  }

  /** Every code in the table is two characters long, and no code is a name. */
  lemma TableShape()
    ensures forall name :: name in StateCodes ==> |StateCodes[name]| == 2
    ensures CodesAreNotNames(StateCodes)
  {
    EntriesShape();
    NamesLongerThanCodes(StateEntries, 2);
    CodesHaveTwoLetters();
  }

  lemma CodesHaveTwoLetters()
    ensures forall name :: name in StateCodes ==> |StateCodes[name]| == 2
  {
    forall name | name in StateCodes
      ensures |StateCodes[name]| == 2
    {
      var i :| 0 <= i < |StateEntries| && StateEntries[i] == (name, StateCodes[name]);
      CodeAt(i);
    }
  }

  lemma CodeAt(i: nat)
    requires i < |StateEntries|
    ensures |StateEntries[i].1| == 2
  {
    if i < |FirstEntries| {
      assert forall k :: 0 <= k < |FirstEntries| ==> |FirstEntries[k].1| == 2;
      assert StateEntries[i] == FirstEntries[i];
    } else {
      assert forall k :: 0 <= k < |LastEntries| ==> |LastEntries[k].1| == 2;
      assert StateEntries[i] == LastEntries[i - |FirstEntries|];
    }
  }

  /** `standardize_state_name` as the notebook defines it. */
  function StandardizeStateName(state: String): (r: String)
    ensures state in StateCodes ==> |r| == 2 && r !in StateCodes
    ensures state !in StateCodes ==> r == state
  {
    TableShape();
    Standardize(StateCodes, state)
  }

  /** No code is a name, so standardising twice is standardising once. */
  lemma StandardizeTwiceIsOnce(state: String)
    ensures StandardizeStateName(StandardizeStateName(state)) == StandardizeStateName(state)
  {
  }

  /** Every name the literal writes is standardised to the code written with it. */
  lemma AllListed()
    ensures forall i :: 0 <= i < |StateEntries| ==>
      StateEntries[i].0 in StateCodes && StandardizeStateName(StateEntries[i].0) == StateEntries[i].1
  {
    NamesDistinct();
    forall i | 0 <= i < |StateEntries|
      ensures StateEntries[i].0 in StateCodes && StateCodes[StateEntries[i].0] == StateEntries[i].1
    {
      var (name, code) := StateEntries[i];
      assert (name, code) in StateEntries;
      TableOfLookup(StateEntries, name, code);
    }
  }

  /** No name is written twice. */
  lemma NamesDistinct()
    ensures forall i, j :: 0 <= i < |StateEntries| && 0 <= j < |StateEntries| && i != j ==>
      StateEntries[i].0 != StateEntries[j].0
  {
    FirstNamesDistinct();
    LastNamesDistinct();
    HalvesDisjoint();
    assert forall i :: |FirstEntries| <= i < |StateEntries| ==> StateEntries[i] == LastEntries[i - |FirstEntries|];
  }

  lemma FirstNamesDistinct()
    ensures forall i, j :: 0 <= i < j < |FirstEntries| ==> FirstEntries[i].0 != FirstEntries[j].0
  {
  }

  lemma LastNamesDistinct()
    ensures forall i, j :: 0 <= i < j < |LastEntries| ==> LastEntries[i].0 != LastEntries[j].0
  {
  }

  lemma HalvesDisjoint()
    ensures forall i, j :: 0 <= i < |FirstEntries| && 0 <= j < |LastEntries| ==> FirstEntries[i].0 != LastEntries[j].0
  {
    HalvesDisjointBelow();
    HalvesDisjointFrom();
  }

  lemma HalvesDisjointBelow()
    ensures forall i, j :: 0 <= i < |FirstEntries| && 0 <= j < 13 ==> FirstEntries[i].0 != LastEntries[j].0
  {
  }

  lemma HalvesDisjointFrom()
    ensures forall i, j :: 0 <= i < |FirstEntries| && 13 <= j < |LastEntries| ==> FirstEntries[i].0 != LastEntries[j].0
  {
  }

  /** A name the literal does not write is not in the table. */
  lemma Unlisted(name: String)
    requires forall i :: 0 <= i < |FirstEntries| ==> FirstEntries[i].0 != name
    requires forall i :: 0 <= i < |LastEntries| ==> LastEntries[i].0 != name
    ensures name !in StateCodes
  {
    assert forall i :: |FirstEntries| <= i < |StateEntries| ==> StateEntries[i] == LastEntries[i - |FirstEntries|];
  }

  /** "Iowa" is written once, with "IA". */
  lemma IowaWrittenOnce()
    ensures forall i :: 0 <= i < |FirstEntries| && FirstEntries[i].0 == "Iowa" ==> FirstEntries[i].1 == "IA"
    ensures forall i :: 0 <= i < |LastEntries| ==> LastEntries[i].0 != "Iowa"
  {
  }

  /** Iowa, which the dashboard's table lacks, is listed. */
  lemma IowaIsStandardized()
    ensures StandardizeStateName("Iowa") == "IA"
  {
    assert StateEntries[14] == ("Iowa", "IA");
    IowaWrittenOnce();
    Listed("Iowa", "IA", 14);
  }

  /** A name outside the fifty states passes through. */
  lemma PuertoRicoIsNotStandardized()
    ensures StandardizeStateName("Puerto Rico") == "Puerto Rico"
  {
    Unlisted("Puerto Rico");
  }

  /** The first four names are each written once, with their codes. */
  lemma FirstFourWrittenOnce()
    ensures forall i :: 0 <= i < |LastEntries| ==>
      LastEntries[i].0 !in {"Alabama", "Alaska", "Arizona", "Arkansas"}
    ensures forall i :: 0 <= i < |FirstEntries| && FirstEntries[i].0 == "Alabama" ==> FirstEntries[i].1 == "AL"
    ensures forall i :: 0 <= i < |FirstEntries| && FirstEntries[i].0 == "Alaska" ==> FirstEntries[i].1 == "AK"
    ensures forall i :: 0 <= i < |FirstEntries| && FirstEntries[i].0 == "Arizona" ==> FirstEntries[i].1 == "AZ"
    ensures forall i :: 0 <= i < |FirstEntries| && FirstEntries[i].0 == "Arkansas" ==> FirstEntries[i].1 == "AR"
  {
    FirstFourNotLater();
    FirstFourFirstHalf();
  }

  lemma FirstFourNotLater()
    ensures forall i :: 0 <= i < |LastEntries| ==>
      LastEntries[i].0 !in {"Alabama", "Alaska", "Arizona", "Arkansas"}
  {
  }

  lemma FirstFourFirstHalf()
    ensures forall i :: 0 <= i < |FirstEntries| && FirstEntries[i].0 == "Alabama" ==> FirstEntries[i].1 == "AL"
    ensures forall i :: 0 <= i < |FirstEntries| && FirstEntries[i].0 == "Alaska" ==> FirstEntries[i].1 == "AK"
    ensures forall i :: 0 <= i < |FirstEntries| && FirstEntries[i].0 == "Arizona" ==> FirstEntries[i].1 == "AZ"
    ensures forall i :: 0 <= i < |FirstEntries| && FirstEntries[i].0 == "Arkansas" ==> FirstEntries[i].1 == "AR"
  {
  }

  lemma FirstFourListed()
    ensures "Alabama" in StateCodes && StateCodes["Alabama"] == "AL"
    ensures "Alaska" in StateCodes && StateCodes["Alaska"] == "AK"
    ensures "Arizona" in StateCodes && StateCodes["Arizona"] == "AZ"
    ensures "Arkansas" in StateCodes && StateCodes["Arkansas"] == "AR"
  {
    FirstFourWrittenOnce();
    FirstFourAt();
    Listed("Alabama", "AL", 0);
    Listed("Alaska", "AK", 1);
    Listed("Arizona", "AZ", 2);
    Listed("Arkansas", "AR", 3);
  }

  lemma FirstFourAt()
    ensures StateEntries[0] == ("Alabama", "AL") && StateEntries[1] == ("Alaska", "AK")
    ensures StateEntries[2] == ("Arizona", "AZ") && StateEntries[3] == ("Arkansas", "AR")
  {
  }

  /** The dashboard's four entries agree with the notebook's table, which also has Iowa. */
  lemma DashboardTableIsPart()
    ensures forall name :: name in Dashboard.StateCodes ==>
      name in StateCodes && StateCodes[name] == Dashboard.StateCodes[name]
    ensures "Iowa" in StateCodes && "Iowa" !in Dashboard.StateCodes
  {
    FirstFourListed();
    IowaIsStandardized();
    Dashboard.IowaIsNotStandardized();
  }

  /** `df_merged`: both tables cleaned with the notebook's table, then left-joined. */
  function Merged(cases: seq<CaseRecord>, cents: seq<CentroidRecord>): (rows: seq<JoinedRecord>)
    ensures |rows| >= |cases|
    ensures UniqueKeys(NormalizeCentroids(StateCodes, cents)) ==> |rows| == |cases|
  {
    CleanAndMerge(StateCodes, cases, cents)
  }

  /** The notebook cleans the case "Iowa", "Polk County" to the key ("IA", "Polk"). */
  lemma IowaPolkCleaned(c: CaseRecord)
    requires c.state == "Iowa" && c.county == "Polk County"
    ensures NormalizeCase(StateCodes, c) == c.(state := "IA", county := "Polk")
  {
    CleanPolkCounty();
    IowaIsStandardized();
  }

  /** A centroid filed under "IA" and "Polk" is left as it is. */
  lemma IaPolkCleaned(r: CentroidRecord)
    requires r.state == "IA" && r.county == "Polk"
    ensures NormalizeCentroid(StateCodes, r) == r
  {
    CleanPolkCounty();
    IowaIsStandardized();
  }

  /**
   A case from "Iowa" in "Polk County" meets a centroid filed under "IA"
   and "Polk": the notebook's table turns "Iowa" into "IA" and the row gets
   the centroid's coordinates. The dashboard, given the same two rows,
   leaves the case without any (`Dashboard.MissesIowa`).
   */
  lemma NotebookLocatesIowa(c: CaseRecord, lat: Coord, lon: Coord)
    requires c.state == "Iowa" && c.county == "Polk County"
    ensures Merged([c], [CentroidRecord("IA", "Polk", Some(lat), Some(lon))])
      == [JoinedRecord(c.(state := "IA", county := "Polk"), Some(lat), Some(lon))]
  {
    var cent := CentroidRecord("IA", "Polk", Some(lat), Some(lon));
    IowaPolkCleaned(c);
    IaPolkCleaned(cent);
    MergeOneWithOne(StateCodes, c, cent);
  }

  /**
   What the notebook prints about counties without centroids: the
   de-duplicated (State, County) pairs in first-seen order, their number,
   and the first ten of them.
   */
  datatype MissingReport = MissingReport(
    listing: seq<CountyKey>,
    totalMissingCounties: nat,
    sample: seq<CountyKey>)

  /**
   The two "missing centroids" printouts, made only when some merged row
   lacks a latitude. The listing holds every key of such a row exactly
   once; the count is its length; the sample is its head of ten.
   */
  function ReportMissing(rows: seq<JoinedRecord>): (r: Option<MissingReport>)
    ensures r.Some? <==> MissingCount(rows) > 0
    ensures r.Some? ==> forall k :: multiset(r.value.listing)[k] == if IsMissingKey(rows, k) then 1 else 0
    ensures r.Some? ==> r.value.totalMissingCounties == |r.value.listing| <= MissingCount(rows)
    ensures r.Some? ==> 0 < |r.value.sample| <= 10 && |r.value.sample| <= r.value.totalMissingCounties
    ensures r.Some? ==> |r.value.sample| == if r.value.totalMissingCounties < 10 then r.value.totalMissingCounties else 10
    ensures r.Some? ==> forall i :: 0 <= i < |r.value.sample| ==> r.value.sample[i] == r.value.listing[i]
  {
    if MissingCount(rows) == 0 then
      None
    else
      var listing := MissingCounties(rows);
      MissingCountiesEmptyIff(rows);
      Some(MissingReport(listing, |listing|, Take(listing, 10)))
  }

  /**
   The listing keeps the keys of the rows without a latitude in the order
   the rows first show them, so the sample is the first ten such keys.
   */
  lemma ReportMissingInRowOrder(rows: seq<JoinedRecord>)
    requires MissingCount(rows) > 0
    ensures ReportMissing(rows).Some?
    ensures ReportMissing(rows).value.listing == Distinct(MissingKeys(rows))
    ensures forall i :: 0 <= i < |ReportMissing(rows).value.listing| ==>
      ReportMissing(rows).value.listing[i] in MissingKeys(rows)
    ensures forall i, j :: 0 <= i < j < |ReportMissing(rows).value.listing| ==>
      FirstIndex(MissingKeys(rows), ReportMissing(rows).value.listing[i])
        < FirstIndex(MissingKeys(rows), ReportMissing(rows).value.listing[j])
  {
    DistinctInFirstOrder(MissingKeys(rows));
  }

  /** A map marker: where it goes and what its popup shows. */
  datatype Marker = Marker(
    latitude: Coord,
    longitude: Coord,
    collectionDate: String,
    birdSpecies: String,
    hpaiStrain: String)

  function MarkerFor(row: JoinedRecord): Marker
    requires row.Located()
  {
    Marker(row.latitude.value, row.longitude.value,
           row.record.collectionDate, row.record.birdSpecies, row.record.hpaiStrain)
  }

  /** One more row adds its point, if it has one, after the points so far. */
  lemma ClusterPointsStep(rows: seq<JoinedRecord>, i: nat)
    requires i < |rows|
    ensures ClusterPoints(rows[..i + 1])
         == ClusterPoints(rows[..i]) + (if rows[i].Located() then [PointOf(rows[i])] else [])
  {
    ClusterPointsAppend(rows[..i], [rows[i]]);
    assert rows[..i + 1] == rows[..i] + [rows[i]];
    assert ClusterPoints([rows[i]]) == if rows[i].Located() then [PointOf(rows[i])] else [];
  }

  /** The marker of every located row, in row order. */
  function LocatedMarkers(rows: seq<JoinedRecord>): (ms: seq<Marker>)
    ensures |ms| <= |rows|
    decreases |rows|
  {
    if rows == [] then
      []
    else
      var last := rows[|rows| - 1];
      var before := LocatedMarkers(rows[..|rows| - 1]);
      if last.Located() then before + [MarkerFor(last)] else before
  }

  /** One more row adds its marker, if it is located, after the markers so far. */
  lemma LocatedMarkersStep(rows: seq<JoinedRecord>, i: nat)
    requires i < |rows|
    ensures LocatedMarkers(rows[..i + 1])
         == LocatedMarkers(rows[..i]) + (if rows[i].Located() then [MarkerFor(rows[i])] else [])
  {
    assert rows[..i + 1][..i] == rows[..i];
    if !rows[i].Located() {
      assert LocatedMarkers(rows[..i]) + [] == LocatedMarkers(rows[..i]);
    }
  }

  /** The markers made from the first `n` rows: one per located row, at its point. */
  predicate MarkersSoFar(rows: seq<JoinedRecord>, n: nat, markers: seq<Marker>)
    requires n <= |rows|
  {
    && markers == LocatedMarkers(rows[..n])
    && |markers| == |ClusterPoints(rows[..n])|
    && (forall k :: 0 <= k < |markers| ==>
          (markers[k].latitude, markers[k].longitude) == ClusterPoints(rows[..n])[k])
  }

  /** One more turn of the loop keeps the markers in step with the rows. */
  lemma MarkersStep(rows: seq<JoinedRecord>, i: nat, markers: seq<Marker>)
    requires i < |rows| && MarkersSoFar(rows, i, markers)
    ensures MarkersSoFar(rows, i + 1, markers + (if rows[i].Located() then [MarkerFor(rows[i])] else []))
  {
    ClusterPointsStep(rows, i);
    LocatedMarkersStep(rows, i);
    if rows[i].Located() {
      var next := markers + [MarkerFor(rows[i])];
      assert next[|markers|] == MarkerFor(rows[i]);
    }
  }

  /**
   The marker loop: walks the merged rows in order and adds a marker for
   each row whose Latitude and Longitude are both present. The markers
   sit exactly at the dashboard's cluster points, one per located row.
   */
  method AddMarkers(rows: seq<JoinedRecord>) returns (markers: seq<Marker>)
    ensures markers == LocatedMarkers(rows)
    ensures |markers| == |ClusterPoints(rows)| <= |rows|
    ensures forall k :: 0 <= k < |markers| ==>
      (markers[k].latitude, markers[k].longitude) == ClusterPoints(rows)[k]
  {
    markers := [];
    for i := 0 to |rows|
      invariant MarkersSoFar(rows, i, markers)
    {
      MarkersStep(rows, i, markers);
      if rows[i].Located() {
        markers := markers + [MarkerFor(rows[i])];
      } else {
        assert markers + [] == markers;
      }
    }
    MarkersDone(rows, markers);
  }

  /** After the last row, the markers are those of the whole table. */
  lemma MarkersDone(rows: seq<JoinedRecord>, markers: seq<Marker>)
    requires MarkersSoFar(rows, |rows|, markers)
    ensures markers == LocatedMarkers(rows)
    ensures |markers| == |ClusterPoints(rows)|
    ensures forall k :: 0 <= k < |markers| ==>
      (markers[k].latitude, markers[k].longitude) == ClusterPoints(rows)[k]
  {
    assert rows[..|rows|] == rows;
  }

  /** `m` is the marker of one of the first `n` rows, which is located. */
  predicate FromLocatedRow(rows: seq<JoinedRecord>, n: nat, m: Marker)
    requires n <= |rows|
  {
    exists j :: 0 <= j < n && rows[j].Located() && m == MarkerFor(rows[j])
  }

  /** Every marker is that of a located row, carrying the row's popup fields. */
  lemma {:induction false} LocatedMarkersFromRows(rows: seq<JoinedRecord>)
    ensures forall k :: 0 <= k < |LocatedMarkers(rows)| ==> FromLocatedRow(rows, |rows|, LocatedMarkers(rows)[k])
    decreases |rows|
  {
    if rows != [] {
      var n := |rows| - 1;
      var init := rows[..n];
      LocatedMarkersFromRows(init);
      LocatedMarkersStep(rows, n);
      assert rows[..n + 1] == rows;
      var before := LocatedMarkers(init);
      var ms := LocatedMarkers(rows);
      forall k | 0 <= k < |ms|
        ensures FromLocatedRow(rows, |rows|, ms[k])
      {
        if k < |before| {
          var j :| 0 <= j < n && init[j].Located() && before[k] == MarkerFor(init[j]);
          assert rows[j] == init[j] && ms[k] == before[k];
        } else {
          assert ms[k] == MarkerFor(rows[n]);
        }
      }
    }
  }

}
