/**
 What the scripts compute from the joined table once it exists: the map
 points, the per-state counts, the three headline numbers, and the report
 of rows that found no coordinates.
 */
module Reports {
  import opened Wrappers
  import opened Strings
  import opened Records
  import opened Sequences
  import KeySort

  /** A map point: (Latitude, Longitude). */
  type Point = (Coord, Coord)

  function PointOf(row: JoinedRecord): Point
    requires row.Located()
  {
    (row.latitude.value, row.longitude.value)
  }

  /**
   `prepare_cluster_data`: the (Latitude, Longitude) pairs of the rows where
   both are present, in row order.
   */
  function ClusterPoints(rows: seq<JoinedRecord>): (pts: seq<Point>)
    ensures |pts| <= |rows|
    ensures |pts| == |rows| <==> forall j :: 0 <= j < |rows| ==> rows[j].Located()
    ensures forall j :: 0 <= j < |rows| && rows[j].Located() ==> PointOf(rows[j]) in pts
  {
    if rows == [] then
      []
    else
      var rest := ClusterPoints(rows[1..]);
      assert forall j :: 1 <= j < |rows| ==> rows[j] == rows[1..][j - 1];
      if rows[0].Located() then [PointOf(rows[0])] + rest else rest
  }

  /** Every point comes from a located row. */
  lemma {:induction false} ClusterPointsSound(rows: seq<JoinedRecord>)
    ensures forall p :: p in ClusterPoints(rows) ==>
      exists j :: 0 <= j < |rows| && rows[j].Located() && PointOf(rows[j]) == p
    decreases |rows|
  {
    if rows != [] {
      ClusterPointsSound(rows[1..]);
      forall p | p in ClusterPoints(rows[1..])
        ensures exists j :: 0 <= j < |rows| && rows[j].Located() && PointOf(rows[j]) == p
      {
        var j :| 0 <= j < |rows[1..]| && rows[1..][j].Located() && PointOf(rows[1..][j]) == p;
        assert rows[j + 1] == rows[1..][j];
      }
    }
  }

  /** Points follow row order: the points of two stretches of rows are concatenated. */
  lemma {:induction false} ClusterPointsAppend(a: seq<JoinedRecord>, b: seq<JoinedRecord>)
    ensures ClusterPoints(a + b) == ClusterPoints(a) + ClusterPoints(b)
    decreases |a|
  {
    if a != [] {
      assert (a + b)[0] == a[0];
      assert (a + b)[1..] == a[1..] + b;
      ClusterPointsAppend(a[1..], b);
    } else {
      assert a + b == b;
    }
  }

  /** `df_merged['Latitude'].isna().sum()`: the rows with no latitude. */
  function MissingCount(rows: seq<JoinedRecord>): (n: nat)
    ensures n <= |rows|
    ensures n == 0 <==> forall j :: 0 <= j < |rows| ==> rows[j].latitude.Some?
    ensures n + |ClusterPoints(rows)| <= |rows|
  {
    if rows == [] then
      0
    else
      var rest := MissingCount(rows[1..]);
      assert forall j :: 1 <= j < |rows| ==> rows[j] == rows[1..][j - 1];
      (if rows[0].latitude.None? then 1 else 0) + rest
  }

  /** Some row without a latitude has key `key`. */
  ghost predicate IsMissingKey(rows: seq<JoinedRecord>, key: CountyKey)
  {
    exists j :: 0 <= j < |rows| && rows[j].latitude.None? && rows[j].Key() == key
  }

  /**
   `df_merged[df_merged['Latitude'].isna()][['State', 'County']]`: the key
   of every row without a latitude, in row order.
   */
  function MissingKeys(rows: seq<JoinedRecord>): (keys: seq<CountyKey>)
    ensures |keys| == MissingCount(rows)
    ensures forall k :: k in keys <==> IsMissingKey(rows, k)
  {
    if rows == [] then
      []
    else
      var rest := MissingKeys(rows[1..]);
      assert forall k :: IsMissingKey(rows, k) <==>
        (rows[0].latitude.None? && rows[0].Key() == k) || IsMissingKey(rows[1..], k) by {
        forall k
          ensures IsMissingKey(rows, k) ==>
            (rows[0].latitude.None? && rows[0].Key() == k) || IsMissingKey(rows[1..], k)
        {
          if IsMissingKey(rows, k) {
            var j :| 0 <= j < |rows| && rows[j].latitude.None? && rows[j].Key() == k;
            if j > 0 {
              assert rows[1..][j - 1] == rows[j];
            }
          }
        }
        forall k | IsMissingKey(rows[1..], k)
          ensures IsMissingKey(rows, k)
        {
          var j :| 0 <= j < |rows[1..]| && rows[1..][j].latitude.None? && rows[1..][j].Key() == k;
          assert rows[j + 1] == rows[1..][j];
        }
      }
      (if rows[0].latitude.None? then [rows[0].Key()] else []) + rest
  }

  /** The keys follow row order: the keys of two stretches of rows are concatenated. */
  lemma {:induction false} MissingKeysAppend(a: seq<JoinedRecord>, b: seq<JoinedRecord>)
    ensures MissingKeys(a + b) == MissingKeys(a) + MissingKeys(b)
    decreases |a|
  {
    if a == [] {
      assert a + b == b;
    } else {
      var head := MissingKeysCons(a);
      var rest := MissingKeysAfterFirst(a, b);
      MissingKeysAppend(a[1..], b);
      Regroup(MissingKeys(a + b), head, MissingKeys(a[1..]), MissingKeys(b), MissingKeys(a));
    }
  }

  /** Prepending rows of `a` leaves the first row of `a` in front. */
  lemma MissingKeysAfterFirst(a: seq<JoinedRecord>, b: seq<JoinedRecord>) returns (rest: seq<JoinedRecord>)
    requires a != []
    ensures rest == a[1..] + b
    ensures MissingKeys(a + b) == (if a[0].latitude.None? then [a[0].Key()] else []) + MissingKeys(rest)
  {
    rest := a[1..] + b;
    var head := MissingKeysCons(a + b);
    assert (a + b)[0] == a[0];
    assert (a + b)[1..] == rest;
  }

  lemma Regroup<T>(whole: seq<T>, h: seq<T>, x: seq<T>, y: seq<T>, left: seq<T>)
    requires whole == h + (x + y) && left == h + x
    ensures whole == left + y
  {
  }

  /** The keys of a non-empty table: the first row's key, if it is missing, then the rest. */
  lemma MissingKeysCons(rows: seq<JoinedRecord>) returns (head: seq<CountyKey>)
    requires rows != []
    ensures head == if rows[0].latitude.None? then [rows[0].Key()] else []
    ensures MissingKeys(rows) == head + MissingKeys(rows[1..])
  {
    head := if rows[0].latitude.None? then [rows[0].Key()] else [];
  }

  /** A single row contributes its key exactly when it has no latitude. */
  lemma MissingKeysOfRow(row: JoinedRecord)
    ensures MissingKeys([row]) == if row.latitude.None? then [row.Key()] else []
  {
    assert [row][1..] == [];
  }

  /**
   The distinct keys of the rows without a latitude, each exactly once
   (`drop_duplicates`, first occurrence kept).
   */
  function MissingCounties(rows: seq<JoinedRecord>): (keys: seq<CountyKey>)
    ensures forall k :: multiset(keys)[k] == if IsMissingKey(rows, k) then 1 else 0
    ensures |keys| <= MissingCount(rows)
  {
    Distinct(MissingKeys(rows))
  }

  /**
   The dashboard's expander table: the distinct keys of the rows without a
   latitude, sorted by (State, County), each exactly once.
   */
  function MissingTable(rows: seq<JoinedRecord>): (keys: seq<CountyKey>)
    ensures forall i, j :: 0 <= i < j < |keys| ==> KeyLess(keys[i], keys[j])
    ensures forall k :: k in keys <==> IsMissingKey(rows, k)
    ensures |keys| == |MissingCounties(rows)| <= MissingCount(rows)
  {
    var d := MissingCounties(rows);
    var keys := KeySort.Sort(d);
    assert forall k :: k in keys <==> k in d by {
      assert forall k :: k in keys <==> multiset(keys)[k] > 0;
      assert forall k :: k in d <==> multiset(d)[k] > 0;
    }
    assert |keys| == |multiset(keys)| == |multiset(d)| == |d|;
    assert NoDuplicates(keys);
    NoRepeats(keys);
    KeySort.SortedDistinctIsStrict(keys);
    keys
  }

  /** The missing-county table is empty exactly when every row has a latitude. */
  /** The de-duplicated listing is empty exactly when the missing count is zero. */
  lemma MissingCountiesEmptyIff(rows: seq<JoinedRecord>)
    ensures MissingCounties(rows) == [] <==> MissingCount(rows) == 0
  {
    if MissingCount(rows) > 0 {
      var j :| 0 <= j < |rows| && rows[j].latitude.None?;
      assert IsMissingKey(rows, rows[j].Key());
      assert multiset(MissingCounties(rows))[rows[j].Key()] == 1;
    }
  }

  lemma MissingTableEmptyIff(rows: seq<JoinedRecord>)
    ensures MissingTable(rows) == [] <==> MissingCount(rows) == 0
  {
    if MissingCount(rows) > 0 {
      var j :| 0 <= j < |rows| && rows[j].latitude.None?;
      assert IsMissingKey(rows, rows[j].Key());
    }
  }

  /** One line of `groupby('State').size()`: a State and how many rows have it. */
  datatype StateCount = StateCount(state: String, count: nat)

  function StatesOf(summary: seq<StateCount>): set<String>
  {
    set e | e in summary :: e.state
  }

  /** The States strictly increase from line to line, so none repeats. */
  predicate Ascending(summary: seq<StateCount>)
  {
    forall i, j :: 0 <= i < j < |summary| ==> LexLess(summary[i].state, summary[j].state)
  }

  predicate AllPositive(summary: seq<StateCount>)
  {
    forall k :: 0 <= k < |summary| ==> summary[k].count > 0
  }

  /** The count a summary lists for `s`, or 0 when it does not list `s`. */
  function CountFor(summary: seq<StateCount>, s: String): (n: nat)
    ensures s !in StatesOf(summary) ==> n == 0
  {
    if summary == [] then 0
    else if summary[0].state == s then summary[0].count
    else CountFor(summary[1..], s)
  }

  function Total(summary: seq<StateCount>): nat
  {
    if summary == [] then 0 else summary[0].count + Total(summary[1..])
  }

  /** Records one more row with State `s`, keeping the lines in State order. */
  function AddState(summary: seq<StateCount>, s: String): (r: seq<StateCount>)
    requires Ascending(summary) && AllPositive(summary)
    ensures Ascending(r) && AllPositive(r)
    ensures StatesOf(r) == StatesOf(summary) + {s}
  {
    if summary == [] then
      [StateCount(s, 1)]
    else if summary[0].state == s then
      AddStateHere(summary, s);
      [StateCount(s, summary[0].count + 1)] + summary[1..]
    else if LexLess(s, summary[0].state) then
      AddStateFront(summary, s);
      [StateCount(s, 1)] + summary
    else
      var rest := AddState(summary[1..], s);
      LexLessTotal(s, summary[0].state);
      AddStateLater(summary, s, rest);
      [summary[0]] + rest
  }

  /** Adding a row with State `s` raises the count of `s` by one and no other count. */
  lemma {:induction false} AddStateCounts(summary: seq<StateCount>, s: String, t: String)
    requires Ascending(summary) && AllPositive(summary)
    ensures CountFor(AddState(summary, s), t) == CountFor(summary, t) + (if t == s then 1 else 0)
    ensures Total(AddState(summary, s)) == Total(summary) + 1
    decreases |summary|
  {
    if summary != [] && summary[0].state != s {
      if LexLess(s, summary[0].state) {
        AddStateFront(summary, s);
      } else {
        AddStateCounts(summary[1..], s, t);
      }
    }
  }

  /** The States of a summary are those of its first line and of the rest. */
  lemma StatesOfCons(e: StateCount, rest: seq<StateCount>)
    ensures StatesOf([e] + rest) == {e.state} + StatesOf(rest)
  {
    var whole := [e] + rest;
    forall t | t in StatesOf(whole)
      ensures t in {e.state} + StatesOf(rest)
    {
      var x :| x in whole && x.state == t;
      var k :| 0 <= k < |whole| && whole[k] == x;
      if k > 0 { assert rest[k - 1] == x; }
    }
    forall t | t in StatesOf(rest)
      ensures t in StatesOf(whole)
    {
      var x :| x in rest && x.state == t;
      var k :| 0 <= k < |rest| && rest[k] == x;
      assert whole[k + 1] == x;
    }
    assert whole[0] == e;
  }

  /** A first line below every later one keeps an ascending summary ascending. */
  lemma AscendingCons(e: StateCount, rest: seq<StateCount>)
    requires Ascending(rest)
    requires forall k :: 0 <= k < |rest| ==> LexLess(e.state, rest[k].state)
    ensures Ascending([e] + rest)
  {
    var whole := [e] + rest;
    forall i, j | 0 <= i < j < |whole|
      ensures LexLess(whole[i].state, whole[j].state)
    {
      assert whole[j] == rest[j - 1];
      if i > 0 { assert whole[i] == rest[i - 1]; }
    }
  }

  /** Order and positivity depend only on the States and the counts line by line. */
  lemma SameStatesAscending(a: seq<StateCount>, b: seq<StateCount>)
    requires Ascending(a) && |a| == |b|
    requires forall k :: 0 <= k < |a| ==> a[k].state == b[k].state
    ensures Ascending(b)
  {
    forall i, j | 0 <= i < j < |b|
      ensures LexLess(b[i].state, b[j].state)
    {
      assert a[i].state == b[i].state && a[j].state == b[j].state;
    }
  }

  /** Raising the first line's count keeps the order and the set of States. */
  lemma AddStateHere(summary: seq<StateCount>, s: String)
    requires Ascending(summary) && AllPositive(summary) && summary != [] && summary[0].state == s
    ensures Ascending([StateCount(s, summary[0].count + 1)] + summary[1..])
    ensures AllPositive([StateCount(s, summary[0].count + 1)] + summary[1..])
    ensures StatesOf([StateCount(s, summary[0].count + 1)] + summary[1..]) == StatesOf(summary) + {s}
  {
    var r := [StateCount(s, summary[0].count + 1)] + summary[1..];
    assert forall k :: 0 <= k < |r| ==> r[k].state == summary[k].state;
    SameStatesAscending(summary, r);
    StatesOfCons(r[0], summary[1..]);
    StatesOfCons(summary[0], summary[1..]);
    assert summary == [summary[0]] + summary[1..];
  }

  /** A State below the first line's is below every line's, so it is new. */
  lemma AddStateFront(summary: seq<StateCount>, s: String)
    requires Ascending(summary) && summary != [] && LexLess(s, summary[0].state)
    ensures Ascending([StateCount(s, 1)] + summary)
    ensures s !in StatesOf(summary)
    ensures StatesOf([StateCount(s, 1)] + summary) == StatesOf(summary) + {s}
  {
    forall j | 0 <= j < |summary|
      ensures LexLess(s, summary[j].state)
    {
      if j > 0 { LexLessTransitive(s, summary[0].state, summary[j].state); }
    }
    LexLessIrreflexive(s);
  }

  /** Keeping the first line ahead of a summary of the rest that gained `s`. */
  lemma AddStateLater(summary: seq<StateCount>, s: String, rest: seq<StateCount>)
    requires Ascending(summary) && summary != [] && LexLess(summary[0].state, s)
    requires Ascending(rest) && StatesOf(rest) == StatesOf(summary[1..]) + {s}
    ensures Ascending([summary[0]] + rest)
    ensures StatesOf([summary[0]] + rest) == StatesOf(summary) + {s}
  {
    var head := summary[0];
    forall k | 0 <= k < |rest|
      ensures LexLess(head.state, rest[k].state)
    {
      assert rest[k].state in StatesOf(rest);
      if rest[k].state != s {
        var e :| e in summary[1..] && e.state == rest[k].state;
        var m :| 0 <= m < |summary[1..]| && summary[1..][m] == e;
        assert summary[m + 1] == e;
      }
    }
    AscendingCons(head, rest);
    assert summary == [head] + summary[1..];
    StatesOfCons(head, summary[1..]);
    StatesOfCons(head, rest);
  }

  /** How many rows have State `s`. */
  function RowsWithState(rows: seq<JoinedRecord>, s: String): nat
  {
    if rows == [] then 0
    else RowsWithState(rows[..|rows| - 1], s) + (if rows[|rows| - 1].record.state == s then 1 else 0)
  }

  /** The State column. */
  function StatesColumn(rows: seq<JoinedRecord>): (col: seq<String>)
    ensures |col| == |rows| && forall j :: 0 <= j < |rows| ==> col[j] == rows[j].record.state
  {
    seq(|rows|, j requires 0 <= j < |rows| => rows[j].record.state)
  }

  /** The County column. */
  function CountiesColumn(rows: seq<JoinedRecord>): (col: seq<String>)
    ensures |col| == |rows| && forall j :: 0 <= j < |rows| ==> col[j] == rows[j].record.county
  {
    seq(|rows|, j requires 0 <= j < |rows| => rows[j].record.county)
  }

  /**
   `get_state_summary`: `groupby('State').size()`. One line per distinct
   State, in State order, with the positive number of rows having it; the
   counts add up to the number of rows.
   */
  function StateSummary(rows: seq<JoinedRecord>): (r: seq<StateCount>)
    ensures Ascending(r) && AllPositive(r)
    ensures StatesOf(r) == Elements(StatesColumn(rows))
    ensures forall s :: CountFor(r, s) == RowsWithState(rows, s)
    ensures Total(r) == |rows|
  {
    if rows == [] then
      []
    else
      var init := rows[..|rows| - 1];
      var last := rows[|rows| - 1];
      assert StatesColumn(rows) == StatesColumn(init) + [last.record.state];
      var r := AddState(StateSummary(init), last.record.state);
      assert forall s :: CountFor(r, s) == RowsWithState(rows, s) by {
        forall s
          ensures CountFor(r, s) == RowsWithState(rows, s)
        {
          AddStateCounts(StateSummary(init), last.record.state, s);
        }
      }
      AddStateCounts(StateSummary(init), last.record.state, last.record.state);
      r
  }

  /** In an ascending summary the first State does not come back. */
  lemma HeadNotRepeated(summary: seq<StateCount>)
    requires Ascending(summary) && summary != []
    ensures summary[0].state !in StatesOf(summary[1..])
  {
    if summary[0].state in StatesOf(summary[1..]) {
      var e :| e in summary[1..] && e.state == summary[0].state;
      var m :| 0 <= m < |summary[1..]| && summary[1..][m] == e;
      assert summary[m + 1] == e;
      LexLessIrreflexive(e.state);
    }
  }

  /** Distinct States are as many as the lines of an ascending summary. */
  lemma {:induction false} AscendingStatesCount(summary: seq<StateCount>)
    requires Ascending(summary)
    ensures |StatesOf(summary)| == |summary|
    decreases |summary|
  {
    if summary != [] {
      var rest := summary[1..];
      AscendingStatesCount(rest);
      HeadNotRepeated(summary);
      assert summary == [summary[0]] + rest;
      StatesOfCons(summary[0], rest);
    }
  }

  /** The three numbers the dashboard shows. */
  datatype Stats = Stats(totalCases: nat, statesAffected: nat, countiesAffected: nat)

  /**
   `calculate_stats`: the number of rows and the number of distinct States
   and of distinct County names (`nunique`). Counties are counted by name
   alone, whatever their State.
   */
  function CalculateStats(rows: seq<JoinedRecord>): (st: Stats)
    ensures st.totalCases == |rows|
    ensures st.statesAffected == |Elements(StatesColumn(rows))|
    ensures st.countiesAffected == |Elements(CountiesColumn(rows))|
    ensures st.statesAffected <= st.totalCases && st.countiesAffected <= st.totalCases
    ensures rows != [] ==> st.statesAffected >= 1 && st.countiesAffected >= 1
  {
    var states := Distinct(StatesColumn(rows));
    var counties := Distinct(CountiesColumn(rows));
    assert rows != [] ==> StatesColumn(rows)[0] in Elements(StatesColumn(rows));
    assert rows != [] ==> CountiesColumn(rows)[0] in Elements(CountiesColumn(rows));
    Stats(|rows|, |states|, |counties|)
  }

  /** The dashboard's "states affected" is the number of lines of its state summary. */
  lemma StatesAffectedMatchesSummary(rows: seq<JoinedRecord>)
    ensures CalculateStats(rows).statesAffected == |StateSummary(rows)|
  {
    AscendingStatesCount(StateSummary(rows));
  }

}
