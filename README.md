# MER2025 annotation and subtitle merge, modelled in Dafny

`main.py` explores the MERChallenge/MER2025 dataset. It lists the repository's files and keeps
the CSV ones, falling back to a fixed list of six files when the listing fails. It then loads
each file into a table named after the file without `.csv`, and skips any file that fails to
load. Next it inner-joins the `track2_train_mercaptionplus` and `track3_train_mercaptionplus`
tables on `name`, with the suffixes `_track2` and `_track3`. Each joined row is rebuilt as a record
with `name`, `openset` and `reason` first, and the records are indexed by name, a later record
overwriting an earlier one. Finally it indexes the `subtitle_chieng` table by name, turning
missing texts into `None`. When the merged index exists, it copies every merged record and adds
`chinese_subtitle` and `english_subtitle` from the subtitle index, or `None` when the name has
no subtitle entry.

The model:

- `records.dfy` (`Records`): cell values `Null` (Python `None`), `Missing` (a pandas NaN cell) and
  `Present(text)`; insertion-ordered dicts, with `Put` as `d[k] = v`.
- `tables.dfy` (`Tables`): a table is a column list plus positional rows, as a DataFrame holds
  them; `row[c]` is `Cell` and `row.get(c, None)` is `Get`.
- `index.dfy` (`Index`): `LastWins`, the dict that a run of `index[key] = value` assignments
  leaves behind, with its key set, last-write and size lemmas. All three name-keyed dicts of the
  script (`datasets`, `merged_by_name`, `subtitle_by_name`) are built by loops proved equal to it.
- `discovery.dfy` (`Discovery`): the CSV filter, `replace('.csv', '')` naming and the loading loop.
  A file whose load raised is absent from the `fetched` input.
- `join.dfy` (`Join`): `pd.merge(..., on='name', how='inner', suffixes=('_track2', '_track3'))` as a
  specification function over rows, with its membership, name, cardinality and column-provenance
  laws.
- `annotations.dfy` (`Annotations`): the row-rebuild loops and the name index.
- `subtitles.dfy` (`Subtitles`): the subtitle index, the copy-and-update enrichment and the common
  names.
- `pipeline.dfy` (`Pipeline`): the stages glued together, including the conditions under which each
  one runs, and the worked example of a two-table merge followed by enrichment.

Points of `main.py` that the model makes explicit:

- `openset` and `reason` are read with `row.get` after the merge. A column both tables have has
  been renamed by then (`openset_track2`/`openset_track3`), so the record holds `None` for it.
  `Pipeline.HoistedField` states this.
- Of the failures that stop `main.py`, the model represents these two:
  - a merge whose suffixed columns still clash raises from pandas;
  - a subtitle table with rows but without `name`, `chinese` or `english` raises `KeyError`.

  The model reports these as `MergeRaised` (after which the subtitle stage is `NotReached`) and
  `SubtitleRaised`. A `name` type mismatch in the merge and failures inside the sample display
  code also stop the script; they are not represented (see "## Left out").
- Running the pipeline again on the same listing and files gives the same report: every stage is
  a function of its inputs.

## Model

| member | source | states |
|---|---|---|
| Records.Put | main.py:180 | `d[k] = v`: k maps to v, every other key keeps its value, an existing key keeps its place and a new key goes last |
| Records.EndsWith | main.py:18 | definition of `s.endswith(suffix)`: the suffix is no longer than `s` and equals its last characters |
| Tables.Cell | main.py:172 | definition of `row[c]` on a DataFrame row: the cell under the first column named `c` |
| Tables.Get | main.py:173-174 | definition of `row.get(c, None)`: the cell under `c` when the row has that column, `None` otherwise |
| Discovery.CsvFiles | main.py:18 | the filtered list holds exactly the listed files ending in `.csv`, and is no longer than the listing |
| Discovery.CsvFilesAppend | main.py:18 | filtering a concatenation is concatenating the filtered parts, so the kept files stay in listing order |
| Discovery.CsvFilesSingle | main.py:18 | a single file is kept exactly when it ends in `.csv` |
| Discovery.RemoveAll | main.py:68 | definition of `str.replace(pat, '')`: a left-to-right scan that deletes non-overlapping occurrences and does not rescan the result; its size bound is its contract, and `RemoveAllAbsent`/`RemoveCsvSuffix` state its laws |
| Discovery.TableName | main.py:68 | definition of `csv_file.replace('.csv', '')`, the table name of a loaded file (the same at main.py:93); `TableNameOfCsvFile` states what it gives |
| Discovery.RemoveAllAbsent | main.py:68 | `replace` leaves a string without the pattern unchanged |
| Discovery.RemoveCsvSuffix | main.py:93 | the name of `p + ".csv"` is the name of `p`: the trailing extension is always removed, with no occurrence straddling it |
| Discovery.TableNameOfCsvFile | main.py:68 | a file whose only `.csv` is its extension is named by the part before it |
| Discovery.LoadPairs | main.py:42-94 | definition of the loading loop's assignments `datasets[dataset_name] = dataset_dict`, in listing order, one per file that loaded; `LoadPairsNames`/`LoadPairsValues` state what they hold |
| Discovery.LoadedNames | main.py:42-94 | definition of the set of table names of the listed files that loaded |
| Discovery.LoadPairsNames | main.py:42-94 | the names assigned by the loading loop are the table names of the listed files that loaded |
| Discovery.LoadPairsValues | main.py:42-94 | every assignment of the loading loop pairs a loaded file's table name with that file's table |
| Discovery.LoadedNamesSnoc | main.py:42-94 | one more listed file adds its table name to the loaded names exactly when it loaded |
| Discovery.LoadTables | main.py:42-112 | `datasets` is the last-write-wins dict of the loop's assignments; its keys are exactly the names of the loaded files, each holding the table of a loaded file of that name; files that failed are skipped |
| Index.LastWins | main.py:197-200 | definition of the dict a run of `d[k] = v` assignments leaves behind, starting from `{}`; also used for main.py:69, main.py:94 and main.py:248-255. `LastWinsKeys`, `LastWinsLast`, `LastWinsFrom` and `LastWinsSize` state its laws |
| Index.LastWinsSnoc | main.py:197-200 | one more assignment `m[k] = v` updates the dict at k only |
| Index.LastWinsStep | main.py:197-200 | the dict after assignment i+1 is the dict after assignment i, updated at that assignment's key |
| Index.LastWinsKeys | main.py:197-200 | the dict's keys are exactly the assigned keys |
| Index.LastWinsLast | main.py:197-200 | a key maps to the value of its last assignment |
| Index.LastWinsFrom | main.py:197-200 | every entry of the dict is one of the assignments |
| Index.LastWinsSize | main.py:197-200 | the dict has at most as many entries as assignments |
| Join.LeftName | main.py:162 | definition of a left column's merged name: `c_track2` when `c` is not `name` and the right table has it too, `c` otherwise |
| Join.RightName | main.py:162 | definition of a right non-key column's merged name: `c_track3` when the left table has it too, `c` otherwise |
| Join.JoinedRow | main.py:157-163 | definition of a merged row: the left cells, then the right cells without the right key cell |
| Join.Matches | main.py:157-163 | definition of the merged rows of one left row: one per right row with the same key, in right-table order; `MatchesMembership`, `MatchesAbsent` and `MatchesCount` state its laws |
| Join.JoinRows | main.py:157-163 | definition of the merged rows, left row by left row; `JoinRowsMembership`, `JoinNames` and `JoinCardinality` state its laws |
| Join.JoinColumns | main.py:157-163 | definition of the merged columns (its ensures spell out the definition; `ColumnCollision`, `NotRenamedInto` and `UnsuffixedFrom` state its properties): the left columns (shared non-key ones suffixed `_track2`), then the right non-key columns (shared ones suffixed `_track3`), in order |
| Join.InnerJoin | main.py:157-163 | the merge succeeds exactly when the suffixed columns are distinct, and then yields a well-formed table with those columns |
| Join.JoinRowsShape | main.py:157-163 | each merged row has one cell per merged column |
| Join.MatchesMembership | main.py:157-163 | the merged rows of one left row are its joins with the right rows of the same name |
| Join.JoinRowsMembership | main.py:157-163 | a row is merged exactly when it joins a track2 row and a track3 row of equal name |
| Join.JoinNames | main.py:157-163 | the names of the merged rows are exactly the names in both tables: names in one table only are dropped, and each shared name gives a merged row |
| Join.MatchesAbsent | main.py:157-163 | a left row whose name is not on the right gives no merged row |
| Join.MatchesCount | main.py:157-163 | with unique right names, a left row gives one merged row if its name is on the right and none otherwise |
| Join.JoinCardinality | main.py:157-163 | with unique names in both tables, the merge has one row per shared name |
| Join.JoinColumnsHasKey | main.py:157-163 | the merged columns contain `name`, at the left table's `name` position |
| Join.JoinedLeftCell | main.py:157-163 | each left cell appears in the merged row under the left column's merged name |
| Join.JoinedRightCell | main.py:157-163 | each right non-key cell appears in the merged row under the right column's merged name |
| Join.RightColumnAt | main.py:157-163 | a right non-key column sits among the merged columns after the left ones, at its own position less one when it follows `name`, under its merged name |
| Join.ColumnCollision | main.py:162 | every non-key column both tables have appears as `c_track2` with the left cell and as `c_track3` with the right cell, so neither value is dropped; when `c` ends in neither suffix, `c` itself is gone |
| Join.NotRenamedInto | main.py:162 | a column ending in neither suffix is merged exactly when only one of the tables has it |
| Join.UnsuffixedFrom | main.py:162 | a merged column that is not `name` and ends in neither suffix comes from exactly one of the tables |
| Annotations.Others | main.py:178-179 | definition of the `col not in ['name', 'openset', 'reason']` filter over the merged columns, in order; its length bound holds by recursion, and `OthersMembership`/`OthersDistinct` state its laws |
| Annotations.OthersMembership | main.py:178-179 | the copied columns are the merged columns other than `name`, `openset` and `reason` |
| Annotations.OthersDistinct | main.py:178-179 | no column is copied twice |
| Annotations.CombinedRecord | main.py:171-181 | the record's keys are `name`, `openset`, `reason`, then the other merged columns in order, and nothing else; `openset`/`reason` are the cells of exactly those columns, or None; every merged column keeps its cell unchanged |
| Annotations.StartRecord | main.py:171-175 | definition of the dict literal (its ensures spell out the literal; `RecordUpToStart` and `BuildCombinedRow` use it): the literal record has exactly the keys `name`, `openset`, `reason`, in that order, holding the row's name and `row.get` of the other two |
| Annotations.RecordUpTo | main.py:171-181 | definition of `combined_row` once the column loop has passed the first `n` merged columns: the three hoisted keys, then the other columns seen so far, with their cells |
| Annotations.RecordUpToStart | main.py:171-175 | before the column loop, the record is the literal one |
| Annotations.RecordUpToStep | main.py:178-180 | one column-loop step adds a non-hoisted column, with its cell, and ignores a hoisted one |
| Annotations.BuildCombinedRow | main.py:171-181 | the record the column loop builds is the combined record of the row |
| Annotations.RebuildRows | main.py:169-182 | `merged_data` has one combined record per merged row, in row order |
| Annotations.NamePairs | main.py:198-200 | definition of the assignments `merged_by_name[entry['name']] = entry` (its ensures spell out the definition; `IndexByName` states what they produce): the index assignments are (record's name, record), one per record, in order |
| Annotations.IndexByName | main.py:197-200 | `merged_by_name` is keyed by exactly the records' names; each key maps to a record of that name, and to the last one when no later record has that name; it has at most as many entries as records |
| Subtitles.Normalize | main.py:253-254 | a text is None exactly when the cell is None or missing, and is the cell otherwise |
| Subtitles.SubtitleEntry | main.py:251-255 | an entry has exactly the keys `name`, `chinese`, `english`, in that order, with the name cell and the normalised texts |
| Subtitles.SubtitlePairs | main.py:249-255 | one subtitle assignment per subtitle row |
| Subtitles.BuildSubtitleIndex | main.py:248-255 | `subtitle_by_name` is the last-write-wins dict of the rows' entries: empty for an empty table, otherwise keyed by exactly the names in the table; each entry has the three keys and carries its own name; at most one entry per row |
| Subtitles.SubtitleIndexFacts | main.py:248-255 | the key set, shape and size of the subtitle index |
| Subtitles.SubtitleIndexShape | main.py:251-255 | every subtitle entry has exactly the three keys and is filed under its own name |
| Subtitles.SubtitleIndexKeys | main.py:249-250 | the subtitle index is keyed by exactly the names in the subtitle table |
| Subtitles.Lookup | main.py:279-280 | definition of the `name in subtitle_by_name` branch: the entry when the name has one, nothing otherwise |
| Subtitles.EnrichedRecord | main.py:276-289 | the copy gets `chinese_subtitle`/`english_subtitle` from the subtitle entry, or None without one; every other field is kept with its value; the existing keys keep their order at the front |
| Subtitles.Enrich | main.py:274-291 | `enhanced_merged_by_name` has exactly the keys of `merged_by_name` and as many entries, each the enriched copy of that name's record; `merged_by_name` is left as it was |
| Subtitles.CommonNames | main.py:265-267 | the common names are merged names that are also subtitle names; they number no more than either index; a merged name outside them has no subtitle entry |
| Subtitles.EnrichedFromCommon | main.py:265-291 | a merged name is common exactly when it has a subtitle entry; then its enriched record's subtitle fields are the entry's texts, and otherwise both are None (with `Subtitles.Enrich`, this holds of every entry of `enhanced_merged_by_name`) |
| Pipeline.MergedNames | main.py:157-200 | the names of the rebuilt records are exactly the names track2 and track3 share |
| Pipeline.DataNames | main.py:197-200 | records named after a column's cells carry exactly that column's names |
| Pipeline.HoistedField | main.py:173-174 | `openset`/`reason` come from track2 when only track2 has the column, from track3 when only track3 has it, and are None when both or neither have it |
| Pipeline.MergeAnnotations | main.py:135-220 | the merge reports which tables are missing when one or both are; it is skipped when one lacks `name`; it raises on a column clash; otherwise it rebuilds and indexes the rows, and the index holds exactly the shared names, as many entries as shared names, each filed under its own name |
| Pipeline.ProcessSubtitles | main.py:227-291 | the stage is skipped without a subtitle table; it raises when a row lacks a subtitle column; otherwise it builds the subtitle index, and enriches the records exactly when the merged index exists, with common names equal to the intersection of the two key sets |
| Pipeline.Run | main.py:9-291 | the files are the CSV files of the listing, or the fallback list on failure; `datasets` comes from the loading loop; the merge succeeds exactly under its preconditions; the subtitle stage is skipped only after a raising merge; enrichment happens exactly when the merge succeeded and the subtitle table is readable, and then preserves the merged key set |
| Pipeline.ExampleColumns | main.py:157-163 | merging columns `name, openset` with `name, reason` gives `name, openset, reason` |
| Pipeline.ExampleRows | main.py:157-163 | of the track3 rows v1 and v2, only v1 joins the track2 row v1, giving one merged row |
| Pipeline.ExampleJoin | main.py:157-163 | the worked example's merge keeps only v1, with columns `name`, `openset`, `reason` |
| Pipeline.ExampleRecord | main.py:171-181 | the worked example's record has the keys `name`, `openset`, `reason`, in that order, with v1, happy and tone of voice |
| Pipeline.ExampleEnrich | main.py:279-284 | enriching that record appends `chinese_subtitle` and `english_subtitle` from v1's subtitle entry |

## Left out

- Listing and downloading (`list_repo_files`, `hf_hub_download`, `load_dataset`) are network calls. The listing is an input (`None` when it raised), and so are the loaded tables (a `fetched` map from file name to table, without the files whose load raised).
- CSV parsing, the special decoding path for `subtitle_chieng.csv`, `Dataset.from_pandas` and `to_pandas` are library conversions. A loaded file is its `train` table; the other splits of a dataset dict are not modelled.
- Cell types: cells are opaque text, `None` or missing. pandas type inference and NaN as a floating-point value are not modelled. Because of this, the model does not represent the `ValueError` that `pd.merge` (main.py:157) raises when pandas infers incompatible types for the two `name` columns, for example integer names in one CSV and text names in the other. The script stops there, while the model sees text cells on both sides and reports `Merged`.
- Missing: `Missing` is a single value. As dict keys, separate pandas NaN objects may stay separate entries, while the model files them under one key.
- The display of enriched samples (main.py:296-307) evaluates `len(data.get('reason', ''))` whenever `reason` is truthy. A sampled record whose `reason` is a NaN cell or another non-string raises `TypeError` there, which stops the script before the publication at main.py:310-311. The model does not represent this failure: failures of the display code are left out along with the display.
- All console output is left out, including the sample displays and the 100-character truncation of `reason`. The sample display of the subtitle rows can only raise where the index loop raises too.
- `locals()`/`globals()` publication: results are returned in a `Report` rather than published. The test `'merged_by_name' in locals()` is "the merge produced its index".
- Annotations.IndexByName: the insertion order of `merged_by_name`'s keys is not modelled, because Dafny maps are unordered. The same holds for `subtitle_by_name` and `enhanced_merged_by_name`, and the enrichment loop visits the names in an unspecified order. No stated result depends on that order.
- Subtitles.Enrich: `data.copy()` is modelled by value semantics. The model does not capture aliasing between `merged_by_name` and the copies; with values, neither can change the other.
- Join.InnerJoin: the merge is reported as a clash whenever the merged columns are not distinct. That includes a suffixed name colliding with an unsuffixed column of the other table. pandas checks for duplicates on each side separately, so it may produce duplicate column labels there instead of raising. Keys are also compared by plain equality: pandas joins null keys with each other, so a track2 row whose `name` is NaN (`Missing`) and a track3 row whose `name` is `None` (`Null`), or the reverse, give a merged row in pandas and none in the model. Two NaN names, or two `None` names, join in both.
- Join.JoinRows: the merged rows are in left-major order, left rows in table order and, within one left row, the matching right rows in table order. That is the order pandas 2.2 and later document for `how='inner'` ("preserve the order of the left keys"). Older pandas groups the merged rows by key instead. The values of `merged_by_name` are the same under either order, as each name's last record is the same row of the join.
- Join.JoinCardinality: exact cardinality is stated only for tables whose names are unique. With duplicate names, membership and `Join.JoinNames` still hold, and `Pipeline.MergeAnnotations` states the index size as the number of shared names.
- Well-formedness of loaded tables (distinct column names, one cell per column) is required of the `fetched` input, as pandas guarantees it.
