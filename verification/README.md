# birdflu: a Dafny model of the case-to-centroid pipeline

The repository holds two short scripts that put bird-flu cases on a map.
`birdfluSL.py` is a notebook script. `birdflu_app.py` is a web dashboard.
Both scripts:

1. load a case table (Collection Date, Bird Species, HPAI Strain, State,
   County) and a table of county centroids (State, County, Latitude,
   Longitude);
2. clean the County column of both tables: delete every " County" and strip
   edge whitespace;
3. map full state names to two-letter codes through a fixed dictionary,
   passing unknown names through;
4. left-join the cases to the centroids on (State, County);
5. report what they found.

The dashboard's report is:

- the clustered map points;
- three metrics: cases, distinct states, distinct counties;
- an expander listing the sorted, de-duplicated counties that have no
  coordinates.

It also computes a per-state row count (`get_state_summary`), but nothing
displays it.

The notebook's report is:

- a printout of the counties without coordinates, with their total and a
  ten-row sample;
- one map marker per located row.

The model is built from pure functions over immutable datatypes:

- Tables are sequences of records (module `Records`).
- Coordinates are `Option<real>`: `None` stands for pandas' NaN.
- Strings are `seq<char>`.

| module | what it models |
|---|---|
| `Strings` | `str.strip()`, `str.replace(pat, '')`, `str.find` and code-point string ordering. |
| `Sequences` | `drop_duplicates`, `head`, and generic sequence facts. |
| `KeySort` | `sort_values(['State', 'County'])`. |
| `Normalize` | County cleaning and the state-dictionary lookup `dict.get(state, state)`. |
| `Merge` | pandas `merge(..., how='left')`. |
| `Pipeline` | Cleaning followed by the merge. |
| `Reports` | `prepare_cluster_data`, `get_state_summary`, `calculate_stats`, the missing count and the missing-county table. |
| `Dashboard` | The dashboard: its own four-entry state table and the view it computes. |
| `Notebook` | The notebook: its fifty-entry state table, its missing-centroid printouts and its marker loop. |

The two scripts' state tables are different, and the model keeps them
apart:

- The dashboard's dictionary holds only Alabama, Alaska, Arizona and
  Arkansas. In place of the other states it has a `# ...existing state
  mappings...` comment.
- The notebook's dictionary lists all fifty states.

So the same input can merge differently in the two scripts.
`Dashboard.MissesIowa` and `Notebook.NotebookLocatesIowa` prove this for the
case ("Iowa", "Polk County") and the centroid ("IA", "Polk"):

- the notebook gives the case the centroid's coordinates;
- the dashboard leaves the case without coordinates.

Three facts about the code are worth stating on their own:

- **Duplicate centroid keys.** pandas emits one joined row per matching
  centroid row, in centroid order. `Merge.MatchedRowRepeated` and
  `Merge.DuplicateKeysEmitEveryMatch` state this behaviour.
- **County cleaning is not idempotent.** Removing " County" can join two
  pieces into a new occurrence. "X C Countyounty" cleans to "X County", and
  that cleans again to "X". `Normalize.CleanCountyNotIdempotent` proves this.
- **"Iowa" becomes "IA" only in the notebook.** The dashboard's table has no
  entry for Iowa, so there "Iowa" passes through unchanged.

## Model

| member | source | states |
|---|---|---|
| Normalize.CleanCounty | birdflu_app.py:29-30 | The cleaned county has no edge whitespace and is no longer than the input. It equals the input exactly when the input neither contains " County" nor has edge whitespace. |
| Normalize.CleanPolkCounty | birdfluSL.py:19-20 | "Polk County" cleans to "Polk", and "Polk" is left unchanged. |
| Normalize.CleanCountyNotIdempotent | birdflu_app.py:29-30 | Cleaning twice can differ from cleaning once: "X C Countyounty" cleans to "X County", which cleans again to something else. |
| Strings.Strip | birdflu_app.py:29 | `strip()` returns a string without edge whitespace, obtained from the input by cutting only whitespace off its two ends. An already trimmed string is returned unchanged. |
| Strings.StripCharacterized | birdflu_app.py:29 | Any trimmed string obtained from `s` by cutting whitespace off its ends is `strip(s)`, so the operation has exactly one possible result. |
| Strings.StripIdempotent | birdfluSL.py:19 | Stripping twice is stripping once. |
| Strings.RemoveAll | birdflu_app.py:29 | `replace(pat, '')` never makes the text longer, and removing the empty string leaves it unchanged. |
| Strings.RemoveAllChanges | birdflu_app.py:29 | `replace(' County', '')` changes the text exactly when " County" occurs in it, and then it shortens the text by at least one whole occurrence. |
| Strings.RemoveAllSkipsTo | birdfluSL.py:19 | When the first occurrence at or after `i` is at `j`, removal keeps the text from `i` up to `j`, drops that occurrence and carries on after it. |
| Strings.Find | birdfluSL.py:19 | `find` returns the leftmost occurrence at or after the start, or -1 exactly when there is none. |
| Strings.RemoveAllByScanning | birdflu_app.py:29 | The find-and-jump scan that CPython's `replace` performs gives the same result as the left-to-right removal definition. |
| Strings.LexLessTransitive | birdflu_app.py:112 | The code-point string order used by the sort is transitive. |
| Strings.LexLessTotal | birdflu_app.py:112 | Any two distinct strings are ordered one way or the other. |
| Strings.LexLessAsymmetric | birdflu_app.py:112 | No two strings are each below the other. |
| Records.KeyLessTotal | birdflu_app.py:112 | (State, County) keys are totally ordered, State first and then County. |
| Records.KeyLessTransitive | birdflu_app.py:112 | The (State, County) key order is transitive. |
| Normalize.TableOf | birdfluSL.py:25-39 | A dict literal contains exactly the names written in it, and each name maps to a code written with that name. |
| Normalize.TableOfLookup | birdfluSL.py:25-40 | If every entry for a name carries the same code, the dictionary maps that name to that code. |
| Normalize.NamesLongerThanCodes | birdfluSL.py:25-39 | When every name is longer than every code, no code is itself a key of the table. |
| Normalize.StandardizeIdempotent | birdfluSL.py:40 | When no code is also a name, `get(state, state)` applied twice gives the same result as applied once. |
| Normalize.NormalizeCase | birdfluSL.py:19-43 | Cleaning a case row changes only its State and County, and changes them to the looked-up State and the cleaned County. The date, species and strain are kept. |
| Normalize.NormalizeCentroid | birdfluSL.py:20-44 | Cleaning a centroid row changes only its key and keeps its coordinates. |
| Dashboard.StandardizeStateName | birdflu_app.py:33-38 | The dashboard maps only Alabama, Alaska, Arizona and Arkansas, to AL, AK, AZ and AR. Every other string passes through unchanged. |
| Dashboard.IowaIsNotStandardized | birdflu_app.py:34-38 | Under the dashboard's table, "Iowa" stays "Iowa". |
| Dashboard.CodesAreUnchanged | birdflu_app.py:38 | Every two-character string, including every code, passes through the dashboard's lookup unchanged. |
| Dashboard.StandardizeTwiceIsOnce | birdflu_app.py:41-42 | Mapping a state name twice gives the same result as mapping it once. |
| Notebook.StandardizeStateName | birdfluSL.py:23-40 | A listed name becomes a two-letter code that is not itself a listed name. An unlisted string passes through unchanged. |
| Notebook.TableShape | birdfluSL.py:25-39 | Every code in the fifty-entry table has two letters, and no code is a name in the table. |
| Notebook.StandardizeTwiceIsOnce | birdfluSL.py:43-44 | Applying the notebook's mapping twice gives the same result as applying it once. |
| Notebook.AllListed | birdfluSL.py:25-40 | Each of the fifty names written in the notebook's dictionary maps to the code written with it. |
| Notebook.IowaIsStandardized | birdfluSL.py:29 | "Iowa" becomes "IA". |
| Notebook.PuertoRicoIsNotStandardized | birdfluSL.py:40 | A name outside the fifty states, "Puerto Rico", passes through unchanged. |
| Notebook.DashboardTableIsPart | birdfluSL.py:26 | Each of the dashboard's four entries is also in the notebook's table, with the same code. "Iowa" is in the notebook's table and not in the dashboard's. |
| Merge.Matches | birdflu_app.py:45-47 | A centroid row is matched exactly when its key equals the case key. There is no match exactly when no centroid row has the key. Unique keys give at most one match. |
| Merge.MatchesAppend | birdfluSL.py:47 | Matches follow centroid order: splitting the centroid table splits the matches the same way. |
| Merge.LeftJoin | birdflu_app.py:45-47 | A left join never loses a case row. With unique centroid keys it has exactly one row per case. |
| Merge.LeftJoinRowsFromCases | birdflu_app.py:45-47 | Every joined row carries a case row unchanged. |
| Merge.LeftJoinExplained | birdflu_app.py:45-47 | Every joined row's coordinates are those of a centroid row with the same key. When no centroid row has that key, both coordinates are missing. |
| Merge.LeftJoinAppend | birdfluSL.py:47 | The join keeps case order: joining two stretches of cases joins each stretch separately and concatenates the results. |
| Merge.UnmatchedRowKeptOnce | birdflu_app.py:45-47 | A case row with no matching centroid appears exactly once, in its place, with no coordinates. |
| Merge.MatchedRowRepeated | birdfluSL.py:47 | A case row with matches appears once per matching centroid row, consecutively and in centroid order, each time with that centroid's coordinates. |
| Merge.LeftJoinUniqueKeys | birdflu_app.py:45-47 | With unique centroid keys, joined row `i` is case row `i`. It carries the matching centroid's coordinates, or none when there is no match. |
| Merge.DuplicateKeysEmitEveryMatch | birdfluSL.py:47 | Two centroid rows with the case's key produce two joined rows, one per centroid row, in centroid order. |
| Pipeline.CleanAndMerge | birdflu_app.py:28-47 | Cleaning and then merging keeps every case row. With unique cleaned centroid keys it keeps exactly one row per case. |
| Pipeline.MergedRowsAreCleanCases | birdfluSL.py:19-47 | The merge sees only cleaned rows: every merged row carries a cleaned case row. |
| Pipeline.MergedCountiesTrimmed | birdflu_app.py:29-47 | No merged County has edge whitespace. |
| Pipeline.MergedOnCleanKeys | birdfluSL.py:19-47 | Keys are compared after cleaning: every merged row's coordinates come from a centroid row whose cleaned key is the row's. Otherwise the row has none. |
| Pipeline.UnmatchedCaseHasNoCoordinates | birdflu_app.py:29-47 | A case whose cleaned key no cleaned centroid has appears in the merge without coordinates. |
| Pipeline.MergeOneWithOne | birdfluSL.py:19-47 | One case against one centroid gives exactly one row. It has the centroid's coordinates exactly when the cleaned keys agree. |
| Dashboard.MissesIowa | birdflu_app.py:29-47 | The dashboard leaves the case ("Iowa", "Polk County") without coordinates even when the centroid ("IA", "Polk") exists. |
| Notebook.NotebookLocatesIowa | birdfluSL.py:19-47 | For the same two rows, the notebook produces ("IA", "Polk") with the centroid's coordinates. |
| Reports.ClusterPoints | birdflu_app.py:56-60 | `prepare_cluster_data` yields at most one point per row. It yields one per row exactly when every row has both coordinates, and the point of every located row is among them. |
| Reports.ClusterPointsSound | birdflu_app.py:57-60 | Every point is the (Latitude, Longitude) of some row that has both. |
| Reports.ClusterPointsAppend | birdflu_app.py:57-60 | Points follow row order. |
| Reports.MissingCount | birdflu_app.py:106 | `isna().sum()` is zero exactly when every row has a latitude. Missing rows and drawn points together never exceed the number of rows. |
| Reports.MissingKeys | birdflu_app.py:110 | The key column of the rows without a latitude has one entry per such row. A key is in it exactly when some row without a latitude has that key. |
| Reports.MissingKeysAppend | birdfluSL.py:56-59 | The keys follow row order: the keys of two stretches of rows are the keys of the first stretch followed by those of the second. |
| Reports.MissingKeysOfRow | birdfluSL.py:56-59 | A single row contributes its key exactly when it has no latitude. |
| Sequences.Distinct | birdflu_app.py:111 | `drop_duplicates` keeps every value of the column exactly once. Its length is the number of distinct values. |
| Sequences.DistinctInFirstOrder | birdfluSL.py:59 | The values `drop_duplicates` keeps come from the column, in the order of their first appearance in it. |
| Reports.MissingCounties | birdflu_app.py:110-111 | Each key of a row without a latitude appears exactly once, and no other key appears. |
| KeySort.Sort | birdflu_app.py:112 | `sort_values` returns a (State, County)-ordered permutation of its input. |
| KeySort.SortedIsUnique | birdflu_app.py:112 | Two sorted arrangements of the same keys are equal, so the sort's output is determined by its input. |
| Reports.MissingTable | birdflu_app.py:110-112 | The expander table is strictly increasing in (State, County), holds exactly the keys of rows without a latitude, and has at most as many lines as such rows. |
| Reports.MissingCountiesEmptyIff | birdfluSL.py:56-60 | The de-duplicated listing of missing counties is empty exactly when no row lacks a latitude. |
| Reports.MissingTableEmptyIff | birdflu_app.py:106-112 | The missing-county table is empty exactly when the missing count is zero. |
| Reports.AddStateCounts | birdflu_app.py:76 | Counting one more row of State `s` raises the count of `s` by one and no other count. |
| Reports.StateSummary | birdflu_app.py:74-76 | `groupby('State').size()` has one line per distinct State, in State order. Each count is the number of rows with that State, and the counts sum to the number of rows. |
| Reports.AscendingStatesCount | birdflu_app.py:76 | A summary in strictly ascending State order lists as many States as it has lines. |
| Reports.CalculateStats | birdflu_app.py:91-96 | total_cases is the number of rows. states_affected and counties_affected are the numbers of distinct State and County values. Neither exceeds total_cases, and both are at least 1 when there is a row. |
| Reports.StatesAffectedMatchesSummary | birdflu_app.py:74-96 | The metric "states affected" equals the number of lines of the state summary. |
| Dashboard.Render | birdflu_app.py:27-113 | The dashboard's figures agree with each other: <br>• the case count is at least the number of input cases; <br>• drawn points plus missing rows never exceed the case count; <br>• the state summary, which is computed but not displayed, has one line per affected state and sums to the case count; <br>• the expander appears exactly when some case lacks a latitude, and then lists between one county and the missing count. |
| Sequences.Take | birdfluSL.py:62 | `head(n)` is the first `n` rows, or all rows when there are fewer. |
| Notebook.ReportMissing | birdfluSL.py:50-62 | The report is printed exactly when some row lacks a latitude. The listing holds each such row's key exactly once, and the total is the listing's length. The sample is the listing's first ten lines, or the whole listing when it has fewer than ten. |
| Notebook.ReportMissingInRowOrder | birdfluSL.py:56-62 | The listing is `drop_duplicates` of the missing keys in row order, so its keys come in the order the rows first show them, and the sample is the first ten of them. |
| Notebook.MarkersStep | birdfluSL.py:72-79 | One turn of the loop adds a marker exactly for a located row. The markers stay at the cluster points, in order. |
| Notebook.AddMarkers | birdfluSL.py:72-79 | The loop makes one marker per row with both coordinates, in row order: marker `k` is the marker of the `k`-th located row, with that row's position, date, species and strain. The markers sit exactly at the dashboard's cluster points. |
| Notebook.LocatedMarkersFromRows | birdfluSL.py:72-79 | Every marker is the marker of some row with both coordinates, and carries that row's date, species and strain. |

## Left out

- Loading the CSV files (`load_data`, `read_csv`) is input and is not modelled. Its `FileNotFoundError` branch, which shows an error and skips everything, is left out too: the model starts from the two loaded tables.
- Page setup, the title, the metric labels, the expander caption and `st_folium` are left out because they are user-interface output. So are `@st.cache_data` caching, `print` and `display`. None of them changes a computed value.
- folium map construction, `FastMarkerCluster` and `MarkerCluster` options, marker icons and the popup's HTML text are left out as rendering. A marker keeps only its location and the three popup fields.
- The notebook's printout of `centroids[['State', 'County']].head()` (birdfluSL.py:16) is output only.
- Coordinates are opaque reals. NaN is `None`, and no floating-point arithmetic is modelled.
- The State and County keys are always strings. Missing (NaN) key values, and pandas' handling of NaN keys in `merge` and `groupby`, are not modelled.
- The notebook merges every centroid column, and the dashboard merges only four. Columns beyond State, County, Latitude and Longitude are not modelled, and neither are pandas' `_x`/`_y` suffixes for clashing names.
- Strings.Strip: strips only the ASCII whitespace characters that `str.strip()` removes. The Unicode spaces it also removes are not modelled.
- Strings.RemoveAllByScanning: requires a non-empty pattern. CPython handles the empty pattern on a separate path, and removing the empty string returns the text unchanged, as `Strings.RemoveAll` states. The scripts only ever remove " County".
- Normalize.Standardize: its contract restates the dictionary lookup. The properties of the lookup are stated by Normalize.StandardizeIdempotent, Normalize.TableOfLookup and the two scripts' StandardizeStateName lemmas.
- Notebook.AddMarkers: the loop's `iterrows` index is not modelled, because it is not used.
