/**
 The clean-up both scripts apply to the two tables before joining them:
 county names lose the word " County" and their edge whitespace, and state
 names are looked up in a fixed name-to-code table.
 */
module Normalize {
  import opened Strings
  import opened Records

  const CountyWord: String := " County"

  /** `.str.replace(' County', '').str.strip()` on one county name. */
  function CleanCounty(name: String): (r: String)
    ensures Trimmed(r) && |r| <= |name|
    ensures r == name <==> !Contains(name, CountyWord) && Trimmed(name)
  {
    RemoveAllChanges(name, CountyWord);
    Strip(RemoveAll(name, CountyWord))
  }

  lemma CleanPolkCounty()
    ensures CleanCounty("Polk County") == "Polk"
    ensures CleanCounty("Polk") == "Polk"
  {
    var s := "Polk County";
    assert s[0..7][0] != CountyWord[0];
    assert s[1..8][0] != CountyWord[0];
    assert s[2..9][0] != CountyWord[0];
    assert s[3..10][0] != CountyWord[0];
    assert s[4..11] == CountyWord;
    RemoveAllSkipsTo(s, CountyWord, 0, 4);
    assert s[0..] == s && s[11..] == [];
    assert RemoveAll(s, CountyWord) == "Polk";
    assert Trimmed("Polk");
    assert !Contains("Polk", CountyWord);
  }

  lemma CleanXCountyounty()
    ensures CleanCounty("X C Countyounty") == "X County"
  {
    RemoveFromXCountyounty();
    assert Trimmed("X County");
  }

  /** Only the occurrence at position 3 is removed; the rest is kept. */
  lemma RemoveFromXCountyounty()
    ensures RemoveAll("X C Countyounty", CountyWord) == "X County"
  {
    var s := "X C Countyounty";
    FirstCountyAtThree(s);
    RemoveAllSkipsTo(s, CountyWord, 0, 3);
    assert s[0..] == s;
    CutXCountyounty(s, s[0..3], s[10..]);
  }

  /** What is left of "X C Countyounty" around the removed word. */
  lemma CutXCountyounty(s: String, head: String, tail: String)
    requires s == "X C Countyounty" && head == s[0..3] && tail == s[10..]
    ensures head + RemoveAll(tail, CountyWord) == "X County"
  {
    assert |tail| < |CountyWord|;
    assert head + tail == "X County";
  }

  /** In "X C Countyounty" the first " County" starts at position 3. */
  lemma FirstCountyAtThree(s: String)
    requires s == "X C Countyounty"
    ensures OccursAt(s, CountyWord, 3)
    ensures forall k :: 0 <= k < 3 ==> !OccursAt(s, CountyWord, k)
  {
    assert s[0..7][0] != CountyWord[0];
    assert s[1..8][2] != CountyWord[2];
    assert s[2..9][0] != CountyWord[0];
    assert s[3..10] == CountyWord;
  }

  lemma CleanXCounty()
    ensures CleanCounty("X County") == "X"
  {
    var u := "X County";
    assert u[0..7][0] != CountyWord[0];
    assert u[1..8] == CountyWord;
    RemoveAllSkipsTo(u, CountyWord, 0, 1);
    assert u[0..] == u && u[8..] == [];
    assert RemoveAll(u, CountyWord) == "X";
    assert Trimmed("X");
  }

  /**
   Cleaning is not idempotent: removing " County" from the middle of a
   name can bring a new occurrence together.
   */
  lemma CleanCountyNotIdempotent()
    ensures CleanCounty(CleanCounty("X C Countyounty")) != CleanCounty("X C Countyounty")
  {
    CleanXCountyounty();
    CleanXCounty();
    assert |"X"| != |"X County"|;
  }

  /** A map from full state names to two-letter codes, like the scripts' `state_dict`. */
  type StateTable = map<String, String>

  /**
   The table a dict literal builds from its entries, written in order: a
   later entry for a name already present replaces the earlier one.
   */
  function TableOf(entries: seq<(String, String)>): (t: StateTable)
    ensures forall name :: name in t <==> exists i :: 0 <= i < |entries| && entries[i].0 == name
    ensures forall name :: name in t ==> exists i :: 0 <= i < |entries| && entries[i] == (name, t[name])
  {
    if entries == [] then map[]
    else
      var last := entries[|entries| - 1];
      var t := TableOf(entries[..|entries| - 1])[last.0 := last.1];
      assert forall i :: 0 <= i < |entries| - 1 ==> entries[..|entries| - 1][i] == entries[i];
      t
  }

  /** A name whose every entry carries the same code is looked up to that code. */
  lemma TableOfLookup(entries: seq<(String, String)>, name: String, code: String)
    requires (name, code) in entries
    requires forall i :: 0 <= i < |entries| && entries[i].0 == name ==> entries[i].1 == code
    ensures name in TableOf(entries) && TableOf(entries)[name] == code
  {
    var i :| 0 <= i < |entries| && entries[i] == (name, code);
    assert entries[i].0 == name;
  }

  /** When every name is longer than every code, no code is a name. */
  lemma NamesLongerThanCodes(entries: seq<(String, String)>, n: nat)
    requires forall i :: 0 <= i < |entries| ==> |entries[i].0| > n && |entries[i].1| <= n
    ensures CodesAreNotNames(TableOf(entries))
  {
    var t := TableOf(entries);
    forall name | name in t
      ensures t[name] !in t
    {
      var i :| 0 <= i < |entries| && entries[i] == (name, t[name]);
      assert |t[name]| <= n;
    }
  }

  /** No code in the table is itself one of its names. */
  predicate CodesAreNotNames(table: StateTable)
  {
    forall name :: name in table ==> table[name] !in table
  }

  /**
   `state_dict.get(state, state)`: a listed name becomes its code, and any
   other string passes through unchanged; the lookup never fails.
   */
  function Standardize(table: StateTable, state: String): (r: String)
    ensures state in table ==> r == table[state]
    ensures state !in table ==> r == state
  {
    if state in table then table[state] else state
  }

  /** When codes are not names, standardising twice is standardising once. */
  lemma StandardizeIdempotent(table: StateTable, state: String)
    requires CodesAreNotNames(table)
    ensures Standardize(table, Standardize(table, state)) == Standardize(table, state)
  {
  }

  /** A case row with its State and County columns cleaned. */
  function NormalizeCase(table: StateTable, c: CaseRecord): (r: CaseRecord)
    ensures r.Key() == CountyKey(Standardize(table, c.state), CleanCounty(c.county))
    ensures r.collectionDate == c.collectionDate && r.birdSpecies == c.birdSpecies && r.hpaiStrain == c.hpaiStrain
  {
    c.(state := Standardize(table, c.state), county := CleanCounty(c.county))
  }

  /** A centroid row with its State and County columns cleaned. */
  function NormalizeCentroid(table: StateTable, r: CentroidRecord): (n: CentroidRecord)
    ensures n.Key() == CountyKey(Standardize(table, r.state), CleanCounty(r.county))
    ensures n.latitude == r.latitude && n.longitude == r.longitude
  {
    r.(state := Standardize(table, r.state), county := CleanCounty(r.county))
  }

  function NormalizeCases(table: StateTable, cases: seq<CaseRecord>): (r: seq<CaseRecord>)
    ensures |r| == |cases|
    ensures forall i :: 0 <= i < |r| ==> r[i] == NormalizeCase(table, cases[i])
  {
    seq(|cases|, i requires 0 <= i < |cases| => NormalizeCase(table, cases[i]))
  }

  function NormalizeCentroids(table: StateTable, cents: seq<CentroidRecord>): (r: seq<CentroidRecord>)
    ensures |r| == |cents|
    ensures forall i :: 0 <= i < |r| ==> r[i] == NormalizeCentroid(table, cents[i])
  {
    seq(|cents|, i requires 0 <= i < |cents| => NormalizeCentroid(table, cents[i]))
  }

}
