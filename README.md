# ASTRO galaxy tables, modelled in Dafny

ASTRO builds a table of galaxy attributes: galactic longitude and latitude,
radial velocity, the size and shape parameters `logd25`, `logr25` and `pa`,
and the distance. It scrapes or queries the HyperLeda and NED catalogues for
a list of galaxy names, merges the per-source tables by source priority, and
fills the gaps of an existing sample table in place. This project models the
logic of those scripts. Fetched pages, query results and coordinate lookups
are inputs. The pandas and Python string operations the scripts rely on are
defined on values. The properties the scripts depend on are proved.

Files and modules:

- `wrappers.dfy` (`Wrappers`): `Option` and `Result`.
- `pytext.dfy` (`PyText`): `str.strip()`, `str.split()`, one-character
  `str.replace()` and `s[1:]`, with Python's notion of whitespace.
- `frames.dfy` (`Frames`): a pandas DataFrame as column labels plus rows, with
  a missing cell for NaN. It covers `df.at`, `df[col] = x`, `rename`,
  `.str.strip()`, `replace(x, nan)` and `pd.merge(how="left")`. The merge
  carries the `_x`/`_y` suffixes, `KeyError` and `MergeError`. The class
  `Frame` holds the operations the scripts apply in place.
- `priority_merge.dfy` (`PriorityMerge`): `merge_tables_with_priority` of
  main.py. It pads each table to the wanted columns, stacks the tables in
  priority order and applies `groupby("Name", as_index=False).first()`.
- `collectors.dfy` (`Collectors`): the three collectors of main.py:
  - the HyperLeda page scraper, with its label lookup and its galactic
    coordinate split;
  - the NED page scraper, with `get_info` and `id_to_name`;
  - the HyperLeda query adapter's field renaming.
- `completion.dfy` (`SampleCompletion`): the per-row completion loop of
  au_code_3teste.py. It covers the module-level variables that survive from
  one row to the next and the `try` that confines an exception to its row.
- `assembly.dfy` (`Assembly`): the table preparation of astr.py lines 13-23
  and of antigo.py lines 3-6.

Where the docstrings and the code disagree, or the code is easy to misread,
the model follows the code:

- **Failures in the main.py collectors.** `get_infos_hyperleda` and
  `get_infos_query_hyperleda` have no per-name `try`. The first failing name
  ends the whole run with its exception; the batch does not go on.
  - `GetInfosHyperleda` and `GetInfosQueryHyperleda` state this.
  - `get_infos_ned` has the same shape. `get_info` catches only the failed
    wait for an element, which leaves that field missing. Starting the driver
    and `driver.get` (main.py:165-166) are outside any `try`, so the first
    name whose page fails ends the run (`GetInfosNed`).
- **Repeated labels on a HyperLeda page.** In `get_infos_hyperleda` the
  *last* row with a given label wins. The `break` only leaves the inner loop
  over labels (`LabelLookupLast`).
- **Repeated labels in the completion loop.** au_code_3teste.py takes the
  *first* such row (`CatalogFill`).
- **Order of the merged table.** It is sorted by name, because `groupby`
  sorts its keys (`MergedOrder`). The docstring of
  `merge_tables_with_priority` does not state an order.
- **The -999.0 placeholder.** Only astr.py turns it into a missing cell, on
  its final table. The priority merge keeps whatever the source tables hold.

## Model

| member | source | states |
|---|---|---|
| PyText.StripSpec | main.py:91 | `strip()` returns the middle of the text between a leading and a trailing run of whitespace; the result neither starts nor ends with whitespace |
| PyText.FirstToken | main.py:93 | `.split()[0]` of a stripped cell: a non-empty word without whitespace, and absent (IndexError in Python) exactly when the text is all whitespace |
| PyText.SplitWord | main.py:105-106 | a word followed by a text that is empty or starts with whitespace splits into that word followed by the text's words |
| PyText.ReplaceAbsent | main.py:105 | `replace` of a character the text does not contain changes nothing |
| PyText.ReplaceAppend | main.py:105 | `replace` distributes over concatenation |
| Frames.CellAt | au_code_3teste.py:78 | `df.at[i, col]` is the cell of row `i`, and KeyError exactly when the frame has no column `col` |
| Frames.WithCell | au_code_3teste.py:88 | `df.at[i, col] = x` sets that one cell; all other cells keep their values; a new label is appended and is missing in every other row |
| Frames.WithColumn | astr.py:14 | `df[col] = x` sets `col` to `x` in every row and keeps every other cell |
| Frames.Select | main.py:280 | `df[cols]` has exactly the listed labels, in order, with the same cells |
| Frames.Renamed | astr.py:18 | `rename(columns={from: to})` moves the cells of `from` under `to` and keeps every other column; it does nothing when `from` is absent |
| Frames.StrippedColumn | astr.py:19 | `df[col].str.strip()` strips each text cell, turns every non-text cell into a missing one, and is KeyError when `col` is absent |
| Frames.Scrubbed | astr.py:23 | `replace(target, nan)` leaves no cell equal to `target`, makes those cells missing and keeps every other cell |
| Frames.LeftJoin | astr.py:15 | `pd.merge(how="left")` succeeds exactly when both sides have the key and no two result labels collide; otherwise KeyError, or MergeError for any collision, including one across the sides that pandas accepts (see Left out); the labels are the left ones then the right non-key ones |
| Frames.LeftJoinRows | astr.py:15 | result row `p` holds the left row and the matching right row of the `p`-th pairing (or missing right cells), in left-row order |
| Frames.LeftJoinKeys | astr.py:15 | a left merge has exactly the left frame's key values |
| Frames.PairingsCoverLeft | astr.py:20 | every left row takes part in some pairing of a left merge |
| Frames.PairingsCoverMatches | astr.py:15 | every right row whose key matches a left row's is paired with it |
| Frames.Frame.Get | au_code_3teste.py:78 | `csv.at[i, col]` read in place, equal to `CellAt` of the current table |
| Frames.Frame.Put | au_code_3teste.py:88 | `csv.at[i, col] = x` in place, the new table being `WithCell` of the old |
| Frames.Frame.Assign | astr.py:14 | `c["Has_cube"] = True` in place, the new table being `WithColumn` of the old |
| Frames.Frame.Rename | astr.py:18 | `rename(..., inplace=True)`, the new table being `Renamed` of the old |
| Frames.Frame.StripColumn | astr.py:19 | `fits['Name'] = fits['Name'].str.strip()` in place; KeyError without the column, and then the frame is unchanged |
| Frames.Frame.Replace | astr.py:23 | `replace(-999.0, np.nan, inplace=True)`, the new table being `Scrubbed` of the old |
| PriorityMerge.Pad | main.py:277-279 | `if col not in df.columns: df[col] = None` adds the column as all-missing and changes no cell |
| PriorityMerge.Padded | main.py:277-279 | after the padding loop every wanted label is present, a label the table lacked holds only missing cells, and every other cell is unchanged |
| PriorityMerge.Conform | main.py:277-280 | `df[final_columns]` after padding: exactly the wanted labels, with missing cells for a label the source lacked |
| PriorityMerge.GroupKeys | main.py:286 | the group keys are the non-missing names, each once, in ascending order |
| PriorityMerge.FirstPresent | main.py:286 | `first()` of one column in one group: some row of that name holds the value, no earlier row of that name holds a non-missing value, and it is missing only when every row of the name is |
| PriorityMerge.GroupBy | main.py:286 | the result is well formed, with `Name` first and then the other wanted labels |
| PriorityMerge.PriorityMerge | main.py:273-291 | ValueError for no tables (`pd.concat([])`), KeyError when `Name` is not wanted, otherwise a well-formed table with the wanted labels |
| PriorityMerge.MergeTablesWithPriority | main.py:273-291 | the loop that pads, selects and collects the tables computes `PriorityMerge` |
| PriorityMerge.PadColumns | main.py:277-279 | the padding loop run in place on a frame computes `Padded` |
| PriorityMerge.FirstPresentAppend | main.py:283 | over stacked rows, the earlier table is searched first |
| PriorityMerge.StackedFirstPresent | main.py:280-286 | a column's first value over the padded, stacked tables is the value of the first table in priority order that has one for the name |
| PriorityMerge.StackedNames | main.py:280-286 | the names of the stacked tables are the names of the input tables |
| PriorityMerge.MergeGroups | main.py:283-286 | the merge has one row per group key, the `i`-th being the group of the `i`-th key |
| PriorityMerge.MergedNames | main.py:283-286 | every merged row has a non-missing name that some input row has |
| PriorityMerge.NamesMerged | main.py:283-286 | every non-missing input name has a merged row |
| PriorityMerge.MergedOrder | main.py:286 | merged rows are in strictly ascending name order, so each name appears once |
| PriorityMerge.MergedCells | main.py:283-286 | per-column priority: every wanted cell of a merged row is the value of the first table, in priority order, that has a non-missing value for that name and column |
| PriorityMerge.SingleTable | main.py:258-291 | merging one table that already has the wanted labels and distinct names returns the same rows, only reordered |
| PriorityMerge.MergedKeyed | main.py:283-286 | a merge result has the wanted labels and distinct non-missing names, row `i` named by the `i`-th key |
| PriorityMerge.MergeIdempotent | main.py:258-291 | merging a merge result again with the same wanted columns changes nothing |
| Collectors.RecordsTable | main.py:111-112 | `pd.DataFrame(records, columns=...)`: one row per record with the given labels, a key the record lacks being missing |
| Collectors.CellToken | main.py:93 | `columns[1].text.strip().split()[0]`: a non-empty word, absent when Python raises IndexError |
| Collectors.LastMatch | main.py:87-94 | the last row with the label, or none when no row has it |
| Collectors.LabelLookup | main.py:86-94 | the label scan only ever fails with IndexError and adds only wanted labels to the record |
| Collectors.LabelLookupOk | main.py:87-94 | the scan fails exactly when some row with a wanted label has no readable value |
| Collectors.LabelLookupLast | main.py:87-94 | a wanted label that labels some row holds the token of the last such row |
| Collectors.LabelLookupKeeps | main.py:86-94 | a label no row has, and every other key, keeps what the record had |
| Collectors.LookupLabels | main.py:87-94 | the nested loops with their `break` compute `LabelLookup` |
| Collectors.GalacticSplit | main.py:105-106 | the two coordinate tokens are non-empty and free of `+`; fewer than two tokens is IndexError |
| Collectors.GalacticPlus | main.py:105-106 | `"G" + a + "+" + b` gives longitude `a` and latitude `b` |
| Collectors.GalacticMinus | main.py:105-106 | `"G" + a + "-" + b` gives longitude `a` and latitude `"-" + b` |
| Collectors.GalacticTooShort | main.py:105-106 | a cell with fewer than two tokens after the rewrite is IndexError |
| Collectors.FirstMatch | main.py:100-103 | the first row with the label, or none when no row has it |
| Collectors.GalacticLookup | main.py:100-107 | `lon` and `lat` come from the first galactic row; without one the record is unchanged; failure is only IndexError |
| Collectors.LookupGalactic | main.py:100-107 | the loop with its `break` computes `GalacticLookup` |
| Collectors.HyperledaRecord | main.py:76-109 | a failed fetch is that failure, and a page with at most five tables is IndexError (`tables[5]`) |
| Collectors.HyperledaRecordName | main.py:86 | a record keeps the name it was started with |
| Collectors.GetInfosHyperleda | main.py:73-112 | with no failing name, the table of every name's record, in order; otherwise the exception of the first failing name |
| Collectors.CollectHyperleda | main.py:73-109 | the loop body for one name computes `HyperledaRecord` |
| Collectors.GetInfo | main.py:132-138 | `get_info` is the element's text, or none exactly when the wait fails |
| Collectors.TextCell | main.py:171 | a text becomes a text cell and `None` a missing cell |
| Collectors.NedColumnsFacts | main.py:141-156 | the column labels differ, and the four ids map to four different fields other than `Name` |
| Collectors.CollectNed | main.py:169-171 | each id is looked up into its own field, whatever happened to the others, and `Name` is the name |
| Collectors.GetInfosNed | main.py:159-176 | the first name whose page fails ends the run with that exception; otherwise one row per name, in order, with the name and each id's text or a missing cell |
| Collectors.QueryRecord | main.py:198-207 | the record exists exactly when the result has `l2`, `b2`, `v`, `logd25`, `logr25` and `pa`; otherwise KeyError names the first field missing in read order |
| Collectors.QueryRecordFields | main.py:199-207 | `l2` lands under `lon`, `b2` under `lat`, the other four fields keep their names, and `Name` is the name |
| Collectors.FirstMissing | main.py:199-207 | the first field, in read order, that the result lacks |
| Collectors.QueryOutcome | main.py:198-207 | a record needs a successful query, and it has exactly the seven output labels |
| Collectors.GetInfosQueryHyperleda | main.py:195-211 | with no failing name, one row per name, in order; otherwise the exception of the first failing name |
| SampleCompletion.Lookup | au_code_3teste.py:81-86 | the search fails only with IndexError; when it succeeds, it adds `variable` to the bound names exactly when some row is labelled |
| SampleCompletion.LookupBinds | au_code_3teste.py:81-86 | with no labelled row the variables keep their values; otherwise the first labelled row's token is bound to the variable, or the search fails with IndexError when that row has no token |
| SampleCompletion.Search | au_code_3teste.py:81-86 | the search loop with its `break` computes `Lookup` |
| SampleCompletion.CatalogStep | au_code_3teste.py:78-90 | a catalog field changes at most its own cell of row `i` and adds no column |
| SampleCompletion.CatalogFill | au_code_3teste.py:78-88 | an absent field takes the token of the first row with its label. With no such row it takes the value an earlier galaxy left in the variable, or raises NameError when there is none. A missing token is IndexError |
| SampleCompletion.CatalogKeeps | au_code_3teste.py:89-90 | a present field is not touched, and nothing else happens |
| SampleCompletion.WritePair | au_code_3teste.py:95-98 | both coordinates are written, as `None` when the lookup inside `get_object_coordinates`'s `try` failed |
| SampleCompletion.Refetch | au_code_3teste.py:95-98 | the call and the two writes change at most the two coordinate cells of row `i` and no variable; a failed driver start (line 23) writes nothing |
| SampleCompletion.CoordinatesStep | au_code_3teste.py:92-100 | the coordinate block changes at most the two coordinate cells of row `i` and no variable; its exceptions are KeyError for a missing `DEC_NED` or `RA_NED` column and the failed driver start |
| SampleCompletion.CoordinatesPair | au_code_3teste.py:92-98 | when either coordinate is absent and the driver starts (line 23), both are overwritten with the fetched pair, or both with `None`; when the driver fails to start, the row is unchanged and that exception is reported |
| SampleCompletion.CoordinatesKept | au_code_3teste.py:99-100 | when both coordinates are present nothing changes |
| SampleCompletion.CoordinateHalfLost | au_code_3teste.py:92-98 | a present declination is erased when the right ascension is absent and the fetch fails |
| SampleCompletion.DistanceStep | au_code_3teste.py:138-150 | the distance block changes at most the distance cell of row `i` and adds no column |
| SampleCompletion.DistanceFill | au_code_3teste.py:138-148 | an absent distance is the conversion of the `modbest` token; `d0` keeps the token even when the conversion raises ValueError, and then the table is unchanged |
| SampleCompletion.DistanceKeeps | au_code_3teste.py:149-150 | a present distance is not touched |
| SampleCompletion.StepOf | au_code_3teste.py:78-150 | one field changes at most the cells it owns in row `i` |
| SampleCompletion.StepsTouch | au_code_3teste.py:78-150 | the fields of a row change at most the cells they own in row `i`; a column they add is missing in every other row |
| SampleCompletion.RowTouches | au_code_3teste.py:56-154 | processing one row changes no other row |
| SampleCompletion.StepsSplit | au_code_3teste.py:78-150 | running the fields is running a prefix and then, unless it raised, the rest |
| SampleCompletion.FieldsApart | au_code_3teste.py:57-63 | no two fields write the same column |
| SampleCompletion.FieldsWrites | au_code_3teste.py:57-63 | the row body writes only `V_r [km/s]`, the coordinates, `logd25`, `logr25`, `PA [degree]` and `D [Mpc]` |
| SampleCompletion.KeepsEarlierWrites | au_code_3teste.py:56-154 | an exception part-way through a row does not undo what the earlier fields wrote |
| SampleCompletion.AbandonedRowKeepsWrites | au_code_3teste.py:56-154 | the same, for the script's six fields |
| SampleCompletion.StepKeepsPresent | au_code_3teste.py:78-150 | a present cell of row `i` in any column but the coordinate pair survives any field |
| SampleCompletion.StepsKeepPresent | au_code_3teste.py:78-150 | such a cell survives the whole row |
| SampleCompletion.RowKeepsCell | au_code_3teste.py:56-154 | one more row, whether its page fails or not, keeps a present cell outside the coordinate pair, in its own row or any other |
| SampleCompletion.SweepKeepsCell | au_code_3teste.py:53-154 | such a cell, present before the walk, is the same after any number of rows |
| SampleCompletion.SweepKeepsPresent | au_code_3teste.py:53-154 | every cell present before the walk, in any column but the coordinate pair, is the same after any number of rows |
| SampleCompletion.RowKeepsNames | au_code_3teste.py:56-154 | a row whose fields do not write `Name` leaves the `Name` column and the row count as they were and loses no column |
| SampleCompletion.SweepKeepsNames | au_code_3teste.py:53-154 | the walk, over fields that do not write `Name`, keeps the row count and the `Name` column and loses no column |
| SampleCompletion.CompletionKeepsPresent | au_code_3teste.py:53-154 | after the whole walk every `V_r`, `logd25`, `logr25`, `PA` and `D` value that was present is unchanged |
| SampleCompletion.CompletionKeepsNames | au_code_3teste.py:53-154 | after the whole walk the names and the row count are unchanged |
| SampleCompletion.FillCatalog | au_code_3teste.py:78-90 | one catalog field of row `i`, in place, computing `CatalogStep` |
| SampleCompletion.FillCoordinates | au_code_3teste.py:92-100 | the coordinate block, in place, computing `CoordinatesStep` |
| SampleCompletion.FillDistance | au_code_3teste.py:138-150 | the distance block, in place, computing `DistanceStep` |
| SampleCompletion.FillKinematics | au_code_3teste.py:78-100 | the velocity and coordinate blocks, in place, computing the first two fields |
| SampleCompletion.FillShape | au_code_3teste.py:102-136 | the `logd25`, `logr25` and `pa` blocks, in place, computing those three fields |
| SampleCompletion.RunField | au_code_3teste.py:78-150 | one field, in place, computing `StepOf` |
| SampleCompletion.CompleteRow | au_code_3teste.py:56-154 | the body of the `try` for one row, in place; the page fetch first, then the six fields in the script's order; the exception it returns is the one the `except` reports, including a failed driver start in `get_object_coordinates` (line 23) |
| SampleCompletion.CompleteSample | au_code_3teste.py:51-154 | KeyError and no change without a `Name` column; otherwise the frame ends as `Completion` of the original, each row's exception ending only that row |
| Assembly.CubeJoin | astr.py:14-15 | the flagged cube merge succeeds exactly when `Frames.LeftJoin` does; a missing `Name` is KeyError, and any label collision is MergeError (see Left out) |
| Assembly.CubeJoinFlag | astr.py:14-15 | every row of the first merge has the cube flag set to True, under its plain label when the sample has no such column |
| Assembly.CubeJoinNames | astr.py:15 | the first merge has exactly the names of the cubes table; a name only the sample has is dropped |
| Assembly.CubeJoinSampleCells | astr.py:15 | a cube name found in the sample gets that sample row's columns; a cube name not found gets missing sample cells |
| Assembly.AttachCubes | antigo.py:3-6 | sets `has_cube` on the cubes table in place and merges. Every result row has `has_cube` True; the names are exactly the cube names; sample columns are copied for cube names found in the sample and missing otherwise |
| Assembly.LeftJoinKeepsLeft | astr.py:20 | the second merge keeps every row of `m`: each is the left part of some result row |
| Assembly.FitsNames | astr.py:18-19 | KeyError exactly when the fits table has neither `Gal` nor `Name`; otherwise a table with a `Name` column and the same rows |
| Assembly.FitsNamesStripped | astr.py:18-19 | the names are the stripped `Gal` texts, with no whitespace at either end, non-text names being missing; the other columns are unchanged |
| Assembly.NameFits | astr.py:18-19 | the rename and the strip in place; on KeyError the fits table is unchanged |
| Assembly.Unblanked | astr.py:23 | a placeholder cell becomes missing and any other cell stays |
| Assembly.ScrubIdempotent | astr.py:23 | scrubbing twice is scrubbing once |
| Assembly.ScrubbedValues | astr.py:23 | after the scrub a column holds its former values with the placeholder made missing |
| Assembly.Prepared | astr.py:13-23 | the prepared table holds no -999.0 anywhere. It exists exactly when both merges succeed as `Frames.LeftJoin` and the fits table has `Gal` or `Name`; otherwise the failure is KeyError(`Name`), or MergeError for any label collision (see Left out) |
| Assembly.PreparedNames | astr.py:13-23 | the prepared table has exactly the names of the cubes table, whatever the sample and fits tables hold |
| Assembly.PrepareTable | astr.py:13-23 | the script's steps on frames: `c` gets the flag, `fits` is renamed and stripped only when the first merge succeeded, and the result is `Prepared` |

## Left out

- Network and browser I/O are not modelled. This covers `requests.get`,
  BeautifulSoup parsing, Selenium (creating the driver, `driver.get`, the
  waits, `driver.quit`), `time.sleep`, `print`, and reading and writing the
  CSV files. A fetched page, a NED element map, a query result and a
  coordinate lookup are inputs, one per name or row. In the collectors a
  failed fetch, driver start or parse is any `Err` in the page input;
  `FetchError` names a failure that is not one of the other Python
  exceptions.
- `get_object_coordinates` (au_code_3teste.py:18-46) is an input
  `Result<Option<(ra, dec)>, Exception>`. `Ok(None)` stands for its
  `(None, None)`. An `Err` is the exception of `webdriver.Chrome` (line 23),
  which comes before its `try`. That exception ends the row after the
  velocity and before either coordinate is written (`CoordinatesPair`).
- `quote(name)` is not modelled: its only use is to build the URL, which is
  an input.
- `float(d0)` and `10**((d1-25)/5)` (au_code_3teste.py:146-147) are the
  parameter `toMpc`. Floating-point arithmetic is out of scope. An
  `OverflowError` of the power is folded into the `None` that stands for
  `ValueError`.
- `get_infos_query_ned`, `SkyCoord`, `SFDQuery` and the loop over
  `hyperleda.query_object` and `Ned.query_object` in astr.py (lines 25-35)
  are not part of this model. They call into astropy, dustmaps and
  astroquery.
- `index_col="Name"` is not modelled: the name is kept as an ordinary column.
  - In astr.py only `c` is read with `index_col="Name"` (line 13) and `csv`
    keeps `Name` as a column. pandas then gives `m` (line 15) `Name` as a
    column with a fresh default index, which is what the model computes.
  - In antigo.py both sides are read with `index_col="Name"` (lines 3-4).
    pandas merges on the index level in the same way but keeps `Name` as the
    index of `m`. The model keeps it as the first column; the rows and cells
    are the same.
- Duplicate column labels are not representable, so pandas' behaviour for
  them is not modelled:
  - `MergeTablesWithPriority` requires distinct `final_columns`;
  - `PrepareTable` and `NameFits` require that a fits table with a `Gal`
    column has no `Name` column, because renaming would then duplicate
    `Name`.
- Frames.LeftJoin: a merge whose result labels collide across the two sides
  is modelled as MergeError. An example is a left `a_y` against the right
  `a` renamed to `a_y`. pandas raises MergeError only when the suffixes
  make labels collide within one side. For a collision across the sides it
  returns a frame with duplicate labels, which a table here cannot hold.
- Assembly.CubeJoin: inherits that MergeError from `Frames.LeftJoin` for a
  cube label that collides with a suffixed sample label (astr.py:15).
- Assembly.Prepared: inherits it for both merges (astr.py:15 and 20).
- The order of mixed-type names (text against numbers) is not modelled.
  `groupby` raises `TypeError` when it cannot compare them; the model orders
  values by kind.
- `.str.strip()` is modelled only on a column holding text or missing
  cells. pandas raises AttributeError for a column with no text at all; the
  model turns its cells into missing ones.
- Cells written by `csv.at` in au_code_3teste.py are kept as text, and the
  distance as a number. pandas may convert the column's dtype; that is not
  modelled.
- Collectors.HyperledaRecord: its contract does not state that the record's
  keys lie within the HyperLeda column list. That follows from
  `LabelLookup` and `GalacticLookup` but is not proved for the composed
  record.
