/**
 The rows the pipeline works on: case records, county centroids, and the
 rows a left join of the two produces. A missing (NaN) coordinate is `None`.
 */
module Records {
  import opened Wrappers
  import opened Strings

  /** A latitude or longitude read from the centroid table; never computed with. */
  type Coord = real

  /** The (State, County) pair the two tables are joined on. */
  datatype CountyKey = CountyKey(state: String, county: String)

  /** A row of the case table. */
  datatype CaseRecord = CaseRecord(
    collectionDate: String,
    birdSpecies: String,
    hpaiStrain: String,
    state: String,
    county: String)
  {
    function Key(): CountyKey
    {
      CountyKey(state, county)
    }
  }

  /** A row of the county-centroid table. */
  datatype CentroidRecord = CentroidRecord(
    state: String,
    county: String,
    latitude: Option<Coord>,
    longitude: Option<Coord>)
  {
    function Key(): CountyKey
    {
      CountyKey(state, county)
    }
  }

  /** A case row with the Latitude and Longitude columns the join adds. */
  datatype JoinedRecord = JoinedRecord(
    record: CaseRecord,
    latitude: Option<Coord>,
    longitude: Option<Coord>)
  {
    function Key(): CountyKey
    {
      record.Key()
    }

    /** Both coordinates are present, so the row can be drawn. */
    predicate Located()
    {
      latitude.Some? && longitude.Some?
    }
  }

  /** The order `sort_values(['State', 'County'])` puts keys in. */
  predicate KeyLess(a: CountyKey, b: CountyKey)
  {
    LexLess(a.state, b.state) || (a.state == b.state && LexLess(a.county, b.county))
  }

  lemma KeyLessIrreflexive(a: CountyKey)
    ensures !KeyLess(a, a)
  {
    LexLessIrreflexive(a.state);
    LexLessIrreflexive(a.county);
  }

  lemma KeyLessTransitive(a: CountyKey, b: CountyKey, c: CountyKey)
    requires KeyLess(a, b) && KeyLess(b, c)
    ensures KeyLess(a, c)
  {
    if LexLess(a.state, b.state) && LexLess(b.state, c.state) {
      LexLessTransitive(a.state, b.state, c.state);
    } else if a.state == b.state && b.state == c.state {
      LexLessTransitive(a.county, b.county, c.county);
    }
  }

  lemma KeyLessTotal(a: CountyKey, b: CountyKey)
    ensures a == b || KeyLess(a, b) || KeyLess(b, a)
  {
    LexLessTotal(a.state, b.state);
    LexLessTotal(a.county, b.county);
  }

}
